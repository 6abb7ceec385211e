/** The storage as the program keeps it: counters and queues updated in place. */
module AsyncMaps {
  import opened Basics
  import opened AsyncStorage

  class AsyncMap<K(==)> {
    /** All non-null pointers; those of the map itself are the `Entry` slots. */
    var ptrs: map<Slot<K>, nat>
    var cnt: map<nat, nat>
    var next: nat
    var toDel: seq<nat>
    var toErase: Option<nat>
    /** The core whose destroy is running or has finished without having been erased yet. */
    var destroyTask: Option<nat>
    ghost var released: seq<nat>
    ghost var started: seq<nat>
    ghost var finished: seq<nat>
    ghost var deleted: seq<nat>

    ghost function State(): Storage<K>
      reads this
    {
      Storage(ptrs, cnt, next, toDel, destroyTask, toErase, released, started, finished, deleted)
    }

    ghost predicate Valid()
      reads this
    {
      State().Inv()
    }

    constructor ()
      ensures Valid() && State() == Empty()
    {
      ptrs, cnt, next, toDel, toErase, destroyTask := map[], map[], 0, [], None, None;
      released, started, finished, deleted := [], [], [], [];
      new;
      EmptyInv<K>();
    }

    // ---- async_ptr ------------------------------------------------------------------------

    method NewCore() returns (c: nat)
      modifies this
      ensures c == old(next) && State() == old(State()).(cnt := old(cnt)[c := 0], next := c + 1)
    {
      c := next;
      cnt, next := cnt[c := 0], next + 1;
    }

    method Link(s: Slot<K>, c: nat)
      requires c in cnt
      modifies this
      ensures State() == old(State()).Acquire(s, c)
    {
      ptrs := ptrs[s := c];
      cnt := cnt[c := cnt[c] + 1];
    }

    /** The end of the destructor of a non-null pointer: the core may now be destroyed. */
    method Forget(c: nat)
      requires c in cnt && cnt[c] > 0
      modifies this
      ensures State() == old(State()).Forget(c)
    {
      cnt := cnt[c := cnt[c] - 1];
      if cnt[c] == 0 {
        toDel := toDel + [c];
        released := released + [c];
      }
    }

    method Destruct(s: Slot<K>)
      requires s in ptrs && ptrs[s] in cnt && cnt[ptrs[s]] > 0
      modifies this
      ensures State() == old(State()).Release(s)
    {
      var c := ptrs[s];
      ptrs := ptrs - {s};
      Forget(c);
    }

    method Get(c: nat, id: nat)
      requires Valid() && Enabled(State(), Action.Get(c, id))
      modifies this
      ensures Valid() && State() == Apply(old(State()), Action.Get(c, id))
      ensures ptrs == old(ptrs)[Held(id) := c] && cnt == old(cnt)[c := old(cnt)[c] + 1]
    {
      ApplyInv(State(), Action.Get(c, id));
      Link(Held(id), c);
    }

    method Drop(id: nat)
      requires Valid() && Enabled(State(), Action.Drop(id))
      modifies this
      ensures Valid() && State() == Apply(old(State()), Action.Drop(id))
      ensures ptrs == old(ptrs) - {Held(id)}
    {
      ReleaseInv(State(), Held(id));
      Destruct(Held(id));
    }

    /** `to` gets what `from` points to, and `from` becomes null; what `to` had is handed back. */
    method TakeOver(to: Slot<K>, from: Slot<K>) returns (replaced: Option<nat>)
      modifies this`ptrs
      ensures ptrs == TakenOver(old(State()), to, from)
      ensures replaced == if to != from && to in old(ptrs) then Some(old(ptrs[to])) else None
    {
      var moved := if from in ptrs then Some(ptrs[from]) else None;
      ptrs := ptrs - {from};
      replaced := if to in ptrs then Some(ptrs[to]) else None;
      ptrs := if moved.Some? then ptrs[to := moved.value] else ptrs - {to};
    }

    /** What the target had is released after it was replaced. */
    method Assign(to: Slot<K>, from: Slot<K>)
      requires Valid()
      modifies this
      ensures Valid() && State() == Apply(old(State()), Action.Assign(to, from))
      ensures to == from ==> State() == old(State())
      ensures to != from && from in old(ptrs) ==> ptrs == (old(ptrs) - {from})[to := old(ptrs)[from]]
      ensures to != from && from !in old(ptrs) ==> ptrs == old(ptrs) - {to}
    {
      AssignedInv(State(), to, from);
      AssignedSteps(State(), to, from);
      var replaced := TakeOver(to, from);
      if replaced.Some? {
        Forget(replaced.value);
      }
      assert State() == Assigned(old(State()), to, from);
      assert from !in old(ptrs) ==> old(ptrs) - {from} == old(ptrs);
    }

    // ---- async_map ------------------------------------------------------------------------

    method TryEmplace(key: K) returns (inserted: bool)
      requires Valid()
      modifies this
      ensures Valid() && State() == Apply(old(State()), Action.TryEmplace(key))
      ensures inserted <==> Entry(key) !in old(ptrs)
      ensures inserted ==> ptrs == old(ptrs)[Entry(key) := old(next)] && cnt == old(cnt)[old(next) := 1]
      ensures !inserted ==> State() == old(State())
    {
      if Entry(key) in ptrs {
        return false;
      }
      CreateInv(State(), Entry(key));
      var p := NewCore();
      Link(Entry(key), p);
      assert cnt == old(State()).Create(Entry(key)).cnt;
      assert State() == old(State()).Create(Entry(key));
      return true;
    }

    method Emplace(key: K, id: nat) returns (created: bool)
      requires Valid() && Enabled(State(), Action.Emplace(key, id))
      modifies this
      ensures Valid() && State() == Apply(old(State()), Action.Emplace(key, id))
      ensures created <==> Entry(key) !in old(ptrs)
      ensures created ==> ptrs == old(ptrs)[Entry(key) := old(next)][Held(id) := old(next)]
      ensures created ==> cnt == old(cnt)[old(next) := 2]
      ensures !created ==> State() == old(State())
    {
      if Entry(key) in ptrs {
        return false;
      }
      EmplacedInv(State(), key, id);
      var p := NewCore();
      Link(Entry(key), p);
      assert cnt == old(State()).Create(Entry(key)).cnt;
      Link(Held(id), p);
      assert State() == Emplaced(old(State()), key, id);
      return true;
    }

    method Erase(key: K)
      requires Valid() && Enabled(State(), Action.Erase(key))
      modifies this
      ensures Valid() && State() == Apply(old(State()), Action.Erase(key))
      ensures ptrs == old(ptrs) - {Entry(key)}
    {
      ReleaseInv(State(), Entry(key));
      Destruct(Entry(key));
    }

    // ---- destruction ----------------------------------------------------------------------

    /** Any of the three ways in which the destroy task may end. */
    method DestroyEnded()
      requires destroyTask.Some? && toErase.None?
      modifies this
      ensures State() == old(State()).Finish()
      ensures old(Valid()) ==> Valid()
    {
      if Valid() {
        FinishInv(State());
      }
      toErase := destroyTask;
      finished := finished + [destroyTask.value];
    }

    method EraseFinished()
      modifies this
      ensures State() == old(State()).Erased()
    {
      if toErase.Some? {
        var x := toErase.value;
        toErase, destroyTask := None, None;
        cnt := cnt - {x};
        deleted := deleted + [x];
      }
    }

    method Tick(sync: bool) returns (announced: bool)
      requires Valid()
      modifies this
      ensures Valid() && State() == Apply(old(State()), DoTick(sync))
      ensures announced <==> old(State()).Announces()
    {
      TickInv(State(), sync);
      announced := false;
      EraseFinished();
      if destroyTask.None? && toDel != [] {
        destroyTask := Some(toDel[0]);
        started := started + [toDel[0]];
        toDel := toDel[1..];
        if sync {
          DestroyEnded();
        }
      } else if destroyTask.Some? && toDel == [] {
        announced := true;
      }
      assert State() == old(State()).Tick(sync);
    }
  }
}
