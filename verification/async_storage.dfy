/**
 Reference counted storage whose objects are destroyed one at a time, later, by a periodic tick.
 `Storage` states what each operation does; the class `AsyncMap` carries it out on its fields.
 */
module AsyncStorage {
  import opened Basics

  /** An `async_ptr` object: the one the map keeps under a key, or one held by other code. */
  datatype Slot<K(==)> = Entry(key: K) | Held(id: nat)

  /**
   The state of the storage. Objects ("cores") are numbered as they are created; `ptrs` has the
   non-null pointers, `cnt` the counts of the cores that still exist. The last four fields are
   the history: cores in the order their counts reached zero, their destruction was started, it
   finished, and they were deleted.
   */
  datatype Storage<K(==)> = Storage(
    ptrs: map<Slot<K>, nat>, cnt: map<nat, nat>, next: nat,
    toDel: seq<nat>, task: Option<nat>, toErase: Option<nat>,
    released: seq<nat>, started: seq<nat>, finished: seq<nat>, deleted: seq<nat>)
  {
    function Holders(c: nat): set<Slot<K>> {
      set s | s in ptrs && ptrs[s] == c
    }

    ghost predicate Inv() {
      && (forall c: nat :: c in cnt <==> c < next && c !in deleted)
      && (forall s | s in ptrs :: ptrs[s] in cnt)
      && (forall c | c in cnt :: cnt[c] == |Holders(c)|)
      && (forall c | c in cnt :: cnt[c] == 0 <==> c in toDel || task == Some(c))
      && (toErase.Some? ==> task == toErase)
      && Distinct(released) && (forall c | c in released :: c < next)
      && released == started + toDel
      && started == finished + (if toErase.Some? then [] else Listed(task))
      && finished == deleted + Listed(toErase)
    }

    // ---- pointers -------------------------------------------------------------------------

    /** `new core` together with the pointer that is made from it at once. */
    function Create(s: Slot<K>): Storage<K> {
      this.(ptrs := ptrs[s := next], cnt := cnt[next := 1], next := next + 1)
    }

    function Acquire(s: Slot<K>, c: nat): Storage<K>
      requires c in cnt
    {
      this.(ptrs := ptrs[s := c], cnt := cnt[c := cnt[c] + 1])
    }

    /** The destructor of a non-null pointer. */
    function Release(s: Slot<K>): Storage<K>
      requires s in ptrs && ptrs[s] in cnt && cnt[ptrs[s]] > 0
    {
      this.(ptrs := ptrs - {s}).Forget(ptrs[s])
    }

    /** One pointer less; the core whose count reaches zero is queued for destruction. */
    function Forget(c: nat): Storage<K>
      requires c in cnt && cnt[c] > 0
    {
      var st := this.(cnt := cnt[c := cnt[c] - 1]);
      if cnt[c] == 1 then st.(toDel := toDel + [c], released := released + [c]) else st
    }

    function Move(from: Slot<K>, to: Slot<K>): Storage<K>
      requires from in ptrs
    {
      this.(ptrs := (ptrs - {from})[to := ptrs[from]])
    }

    // ---- destruction ----------------------------------------------------------------------

    /** The completion of the running destroy, however it ended. */
    function Finish(): Storage<K>
      requires task.Some?
    {
      this.(toErase := task, finished := finished + [task.value])
    }

    function Erased(): Storage<K> {
      if toErase.None? then this
      else this.(task := None, toErase := None, cnt := cnt - {toErase.value},
                 deleted := deleted + [toErase.value])
    }

    function StartNext(): Storage<K>
      requires toDel != []
    {
      this.(toDel := toDel[1..], task := Some(toDel[0]), started := started + [toDel[0]])
    }

    /** One tick; `sync` says whether a destroy it starts completes before it returns. */
    function Tick(sync: bool): Storage<K> {
      var st := Erased();
      if st.task.None? && st.toDel != [] then
        var running := st.StartNext();
        if sync then running.Finish() else running
      else st
    }

    /** Whether that tick announces that all cores are destroyed. */
    predicate Announces() {
      Erased().task.Some? && toDel == []
    }
  }

  function Empty<K(==)>(): Storage<K> {
    Storage(map[], map[], 0, [], None, None, [], [], [], [])
  }

  // ---- every operation keeps the invariant --------------------------------------------------

  lemma DistinctParts<T>(a: seq<T>, x: T, b: seq<T>)
    requires Distinct(a + [x] + b)
    ensures x !in a && x !in b
  {
    var s := a + [x] + b;
    assert s[|a|] == x;
    assert forall i | 0 <= i < |a| :: s[i] == a[i];
    assert forall i | 0 <= i < |b| :: s[|a| + 1 + i] == b[i];
  }

  /** Every stage of destruction only has cores that were released. */
  lemma Stages<K>(st: Storage<K>)
    requires st.Inv()
    ensures st.released == st.deleted + Listed(st.toErase)
                           + (if st.toErase.Some? then [] else Listed(st.task)) + st.toDel
    ensures forall c | c in st.deleted || c in st.toDel || st.task == Some(c) :: c in st.released
  {
  }

  lemma CreateInv<K>(st: Storage<K>, s: Slot<K>)
    requires st.Inv() && s !in st.ptrs
    ensures st.Create(s).Inv()
  {
    var st' := st.Create(s);
    Stages(st);
    assert st'.Holders(st.next) == {s};
    forall c | c in st.cnt
      ensures st'.Holders(c) == st.Holders(c)
    {
    }
  }

  lemma AcquireInv<K>(st: Storage<K>, s: Slot<K>, c: nat)
    requires st.Inv() && s !in st.ptrs && c in st.cnt && st.cnt[c] > 0
    ensures st.Acquire(s, c).Inv()
  {
    var st' := st.Acquire(s, c);
    assert st'.Holders(c) == st.Holders(c) + {s};
    forall d | d in st.cnt && d != c
      ensures st'.Holders(d) == st.Holders(d)
    {
    }
  }

  /** A pointer's core exists, with a positive count and no destruction pending. */
  lemma HolderCounted<K>(st: Storage<K>, s: Slot<K>)
    requires st.Inv() && s in st.ptrs
    ensures st.ptrs[s] in st.cnt && st.cnt[st.ptrs[s]] > 0 && st.ptrs[s] !in st.released
  {
    assert s in st.Holders(st.ptrs[s]);
  }

  lemma ReleaseInv<K>(st: Storage<K>, s: Slot<K>)
    requires st.Inv() && s in st.ptrs
    ensures st.ptrs[s] in st.cnt && st.cnt[st.ptrs[s]] > 0 && st.Release(s).Inv()
  {
    HolderCounted(st, s);
    var c, st' := st.ptrs[s], st.Release(s);
    assert st'.Holders(c) == st.Holders(c) - {s} && s in st.Holders(c);
    forall d | d in st.cnt && d != c
      ensures st'.Holders(d) == st.Holders(d)
    {
    }
    if st.cnt[c] == 1 {
      Assoc(st.started, st.toDel, [c]);
    }
  }

  lemma MoveInv<K>(st: Storage<K>, from: Slot<K>, to: Slot<K>)
    requires st.Inv() && from in st.ptrs && to !in st.ptrs
    ensures st.Move(from, to).Inv()
  {
    var c, st' := st.ptrs[from], st.Move(from, to);
    assert st'.Holders(c) == st.Holders(c) - {from} + {to};
    assert from in st.Holders(c);
    forall d | d in st.cnt && d != c
      ensures st'.Holders(d) == st.Holders(d)
    {
    }
  }

  lemma FinishInv<K>(st: Storage<K>)
    requires st.Inv() && st.task.Some? && st.toErase.None?
    ensures st.Finish().Inv()
  {
    forall c | c in st.cnt
      ensures st.Finish().Holders(c) == st.Holders(c)
    {
    }
  }

  lemma ErasedInv<K>(st: Storage<K>)
    requires st.Inv()
    ensures st.Erased().Inv()
  {
    if st.toErase.Some? {
      var x, st' := st.toErase.value, st.Erased();
      Stages(st);
      assert st.released == st.deleted + [x] + st.toDel;
      DistinctParts(st.deleted, x, st.toDel);
      forall s | s in st.ptrs
        ensures st.ptrs[s] != x
      {
        HolderCounted(st, s);
      }
      forall c | c in st'.cnt
        ensures st'.Holders(c) == st.Holders(c)
      {
      }
    }
  }

  lemma StartNextInv<K>(st: Storage<K>)
    requires st.Inv() && st.task.None? && st.toDel != []
    ensures st.StartNext().Inv() && st.StartNext().toErase.None?
  {
    Stages(st);
    var x, st' := st.toDel[0], st.StartNext();
    assert st.toDel == [x] + st.toDel[1..];
    Assoc(st.started, [x], st.toDel[1..]);
    forall c | c in st.cnt
      ensures st'.Holders(c) == st.Holders(c)
    {
    }
  }

  lemma TickInv<K>(st: Storage<K>, sync: bool)
    requires st.Inv()
    ensures st.Tick(sync).Inv()
  {
    ErasedInv(st);
    var st' := st.Erased();
    if st'.task.None? && st'.toDel != [] {
      StartNextInv(st');
      if sync {
        FinishInv(st'.StartNext());
      }
    }
  }

  // ---- what the invariant means -------------------------------------------------------------

  /** The stages of a core's life. */
  datatype Stage = Live | Waiting | Destroying | AwaitingErase | Deleted

  predicate AtStage<K(==)>(st: Storage<K>, c: nat, stage: Stage) {
    match stage
    case Live => c in st.cnt && st.cnt[c] > 0
    case Waiting => c in st.toDel
    case Destroying => st.task == Some(c) && st.toErase.None?
    case AwaitingErase => st.toErase == Some(c)
    case Deleted => c in st.deleted
  }

  function StageOf<K(==)>(st: Storage<K>, c: nat): Stage {
    if c in st.cnt && st.cnt[c] > 0 then Live
    else if c in st.toDel then Waiting
    else if c in st.deleted then Deleted
    else if st.toErase.Some? then AwaitingErase
    else Destroying
  }

  lemma StagesApart<K>(st: Storage<K>)
    requires st.Inv()
    ensures st.task.Some? ==> st.task.value in st.cnt && st.task.value !in st.toDel
    ensures forall c | c in st.deleted :: c !in st.toDel
  {
    Stages(st);
    if st.task.Some? {
      assert st.released == st.deleted + [st.task.value] + st.toDel;
      DistinctParts(st.deleted, st.task.value, st.toDel);
      assert st.task.value in st.released;
    }
    DistinctEnds(st.released, st.deleted, st.toDel);
  }

  /** Every core ever created is at exactly one stage. */
  lemma OneStage<K>(st: Storage<K>, c: nat, stage: Stage)
    requires st.Inv() && c < st.next
    ensures AtStage(st, c, stage) <==> stage == StageOf(st, c)
  {
    StagesApart(st);
  }

  lemma DistinctEnds<T>(s: seq<T>, a: seq<T>, b: seq<T>)
    requires Distinct(s) && |a| + |b| <= |s| && a == s[..|a|] && b == s[|s| - |b|..]
    ensures forall x | x in a :: x !in b
  {
    assert forall i | 0 <= i < |a| :: a[i] == s[i];
    assert forall j | 0 <= j < |b| :: b[j] == s[|s| - |b| + j];
    assert forall i, j | 0 <= i < |a| && 0 <= j < |b| :: a[i] != b[j];
  }

  /** A core is live exactly while some pointer has it. */
  lemma LiveWhileHeld<K>(st: Storage<K>, c: nat)
    requires st.Inv() && c < st.next
    ensures AtStage(st, c, Live) <==> exists s :: s in st.ptrs && st.ptrs[s] == c
  {
    if s :| s in st.ptrs && st.ptrs[s] == c {
      HolderCounted(st, s);
    } else {
      assert st.Holders(c) == {};
    }
  }

  /** Cores are started, finished and deleted in the order in which their counts reached zero. */
  lemma DestroyedInOrder<K>(st: Storage<K>)
    requires st.Inv()
    ensures st.deleted <= st.finished <= st.started <= st.released
    ensures |st.started| - |st.deleted| <= 1
  {
  }

  /** A tick deletes at most one core: one without pointers, whose destroy has finished. */
  lemma DeletedLast<K>(st: Storage<K>, sync: bool, c: nat)
    requires st.Inv() && c in st.cnt && c !in st.Tick(sync).cnt
    ensures st.toErase == Some(c) && c in st.finished
    ensures st.Holders(c) == {} && st.Tick(sync).deleted == st.deleted + [c]
  {
    assert st.finished[|st.finished| - 1] == c;
  }

  /**
   The announcement that everything is destroyed comes too early: whenever a tick makes it, the
   destroy of some core has been started and has not finished.
   */
  lemma AnnouncedEarly<K>(st: Storage<K>)
    requires st.Inv() && st.Announces()
    ensures exists c :: c in st.cnt && c in st.started && c !in st.finished
  {
    Stages(st);
    var x := st.task.value;
    assert st.released == st.deleted + [x] + st.toDel;
    DistinctParts(st.deleted, x, st.toDel);
    assert x in st.started;
  }

  /** Exactly then: a tick announces if the last destroy to be started is still running. */
  lemma AnnouncesWhen<K>(st: Storage<K>)
    requires st.Inv()
    ensures st.Announces() <==> st.task.Some? && st.toErase.None? && st.toDel == []
    ensures st.Announces() <==> st.started == st.released && st.finished != st.started
  {
    assert st.task.Some? && st.toErase.None? ==> |st.finished| < |st.started|;
  }

  // ---- what the program may do --------------------------------------------------------------

  datatype Action<K> =
    | TryEmplace(key: K)
    | Emplace(key: K, id: nat)
    | Erase(key: K)
    | Get(core: nat, id: nat)
    | Assign(to: Slot<K>, from: Slot<K>)
    | Drop(id: nat)
    | Complete
    | DoTick(sync: bool)

  /** When the program may do it: pointers are dropped once, and only cores still counted are got. */
  predicate Enabled<K(==)>(st: Storage<K>, a: Action<K>) {
    match a
    case TryEmplace(_) => true
    case Emplace(_, id) => Held(id) !in st.ptrs
    case Erase(key) => Entry(key) in st.ptrs
    case Get(c, id) => c in st.cnt && st.cnt[c] > 0 && Held(id) !in st.ptrs
    case Assign(_, _) => true
    case Drop(id) => Held(id) in st.ptrs
    case Complete => st.task.Some? && st.toErase.None?
    case DoTick(_) => true
  }

  /** `emplace` also hands out a second pointer to the core it creates, unless the key is taken. */
  function Emplaced<K(==)>(st: Storage<K>, key: K, id: nat): Storage<K> {
    if Entry(key) in st.ptrs then st
    else st.Create(Entry(key)).Acquire(Held(id), st.next)
  }

  /** Move assignment: `to` takes over what `from` points to, and what `to` had is released. */
  function Assigned<K(==)>(st: Storage<K>, to: Slot<K>, from: Slot<K>): Storage<K>
    requires st.Inv()
  {
    if to == from then st
    else
      var st1 := if to in st.ptrs then ReleaseInv(st, to); st.Release(to) else st;
      if from in st.ptrs then st1.Move(from, to) else st1
  }

  function Apply<K(==)>(st: Storage<K>, a: Action<K>): Storage<K>
    requires st.Inv() && Enabled(st, a)
  {
    match a
    case TryEmplace(key) => if Entry(key) in st.ptrs then st else st.Create(Entry(key))
    case Emplace(key, id) => Emplaced(st, key, id)
    case Erase(key) => ReleaseInv(st, Entry(key)); st.Release(Entry(key))
    case Get(c, id) => st.Acquire(Held(id), c)
    case Assign(to, from) => Assigned(st, to, from)
    case Drop(id) => ReleaseInv(st, Held(id)); st.Release(Held(id))
    case Complete => st.Finish()
    case DoTick(sync) => st.Tick(sync)
  }

  lemma ApplyInv<K>(st: Storage<K>, a: Action<K>)
    requires st.Inv() && Enabled(st, a)
    ensures Apply(st, a).Inv()
  {
    match a
    case TryEmplace(key) => if Entry(key) !in st.ptrs { CreateInv(st, Entry(key)); }
    case Emplace(key, id) => EmplacedInv(st, key, id);
    case Erase(key) => ReleaseInv(st, Entry(key));
    case Get(c, id) => AcquireInv(st, Held(id), c);
    case Assign(to, from) => AssignedInv(st, to, from);
    case Drop(id) => ReleaseInv(st, Held(id));
    case Complete => FinishInv(st);
    case DoTick(sync) => TickInv(st, sync);
  }

  lemma EmplacedInv<K>(st: Storage<K>, key: K, id: nat)
    requires st.Inv() && Held(id) !in st.ptrs
    ensures Emplaced(st, key, id).Inv()
  {
    if Entry(key) !in st.ptrs {
      CreateInv(st, Entry(key));
      AcquireInv(st.Create(Entry(key)), Held(id), st.next);
    }
  }

  lemma AssignedInv<K>(st: Storage<K>, to: Slot<K>, from: Slot<K>)
    requires st.Inv()
    ensures Assigned(st, to, from).Inv()
  {
    if to != from {
      var st1 := st;
      if to in st.ptrs {
        ReleaseInv(st, to);
        st1 := st.Release(to);
      }
      if from in st.ptrs {
        MoveInv(st1, from, to);
      }
    }
  }

  /** The pointers after a move assignment. */
  function TakenOver<K(==)>(st: Storage<K>, to: Slot<K>, from: Slot<K>): map<Slot<K>, nat> {
    var rest := st.ptrs - {from};
    if from in st.ptrs then rest[to := st.ptrs[from]] else rest - {to}
  }

  /** The order in which the program does it comes to the same: take over first, release afterwards. */
  lemma AssignedSteps<K>(st: Storage<K>, to: Slot<K>, from: Slot<K>)
    requires st.Inv()
    ensures to in st.ptrs ==> st.ptrs[to] in st.cnt && st.cnt[st.ptrs[to]] > 0
    ensures var st1 := st.(ptrs := TakenOver(st, to, from));
            Assigned(st, to, from) == if to in st.ptrs && to != from then st1.Forget(st.ptrs[to]) else st1
  {
    if to in st.ptrs {
      HolderCounted(st, to);
    }
    if to == from {
      assert TakenOver(st, to, from) == st.ptrs;
    } else if from in st.ptrs {
      assert ((st.ptrs - {to}) - {from})[to := st.ptrs[from]] == (st.ptrs - {from})[to := st.ptrs[from]];
    } else {
      assert st.ptrs - {from} == st.ptrs;
    }
  }

  // ---- what the pointers are afterwards -------------------------------------------------------

  /** The pointers after an action, in terms of the pointers before it. */
  function PtrsAfter<K(==)>(st: Storage<K>, a: Action<K>): map<Slot<K>, nat> {
    match a
    case TryEmplace(key) => if Entry(key) in st.ptrs then st.ptrs else st.ptrs[Entry(key) := st.next]
    case Emplace(key, id) =>
      if Entry(key) in st.ptrs then st.ptrs else st.ptrs[Entry(key) := st.next][Held(id) := st.next]
    case Erase(key) => st.ptrs - {Entry(key)}
    case Get(c, id) => st.ptrs[Held(id) := c]
    case Assign(to, from) => TakenOver(st, to, from)
    case Drop(id) => st.ptrs - {Held(id)}
    case Complete => st.ptrs
    case DoTick(_) => st.ptrs
  }

  /** Each action does just that to the pointers; only the two emplacing ones create a core. */
  lemma ApplyPointers<K>(st: Storage<K>, a: Action<K>)
    requires st.Inv() && Enabled(st, a)
    ensures Apply(st, a).ptrs == PtrsAfter(st, a)
    ensures Apply(st, a).next == st.next + if (a.TryEmplace? || a.Emplace?) && Entry(a.key) !in st.ptrs then 1 else 0
  {
    match a
    case Assign(to, from) => AssignedSteps(st, to, from);
    case _ =>
  }

  ghost predicate IsHeld<K(!new)>(ptrs: map<Slot<K>, nat>, c: nat) {
    exists s :: s in ptrs && ptrs[s] == c
  }

  /** The released cores are those that were created and have no pointer left. */
  lemma ReleasedUnheld<K(!new)>(st: Storage<K>, c: nat)
    requires st.Inv()
    ensures c in st.released <==> c < st.next && !IsHeld(st.ptrs, c)
  {
    Stages(st);
    if s :| s in st.ptrs && st.ptrs[s] == c {
      HolderCounted(st, s);
    } else if c in st.cnt {
      assert st.Holders(c) == {};
    }
  }

  /** An action releases exactly the cores whose last pointer it takes away. */
  lemma ReleasedExactly<K(!new)>(st: Storage<K>, a: Action<K>, c: nat)
    requires st.Inv() && Enabled(st, a)
    ensures c in Apply(st, a).released <==>
            c in st.released || (IsHeld(st.ptrs, c) && !IsHeld(PtrsAfter(st, a), c))
  {
    ApplyInv(st, a);
    ApplyPointers(st, a);
    ReleasedUnheld(st, c);
    ReleasedUnheld(Apply(st, a), c);
    NothingElseHeld(st, a, c);
    if s :| s in st.ptrs && st.ptrs[s] == c {
      HolderCounted(st, s);
    }
  }

  /** A core that was not held before is held afterwards only if it has just been created. */
  lemma NothingElseHeld<K(!new)>(st: Storage<K>, a: Action<K>, c: nat)
    requires st.Inv() && Enabled(st, a)
    ensures IsHeld(PtrsAfter(st, a), c) ==> IsHeld(st.ptrs, c) || c == st.next
    ensures c == st.next && Apply(st, a).next > c ==> IsHeld(PtrsAfter(st, a), c)
  {
    ApplyPointers(st, a);
    if c == st.next && Apply(st, a).next > c {
      assert Entry(a.key) in PtrsAfter(st, a) && PtrsAfter(st, a)[Entry(a.key)] == c;
    }
  }

  lemma EmptyInv<K>()
    ensures Empty<K>().Inv()
  {
  }
}
