/**
 The storage client: one map of byte strings, the expiry table and the timers, and the
 commands as methods that read a value, run the command's transaction on it and write the
 outcome back. The store stands for the LMDB environment, one transaction per command.
 */
module Storage {
  import opened Bytes
  import opened Codec
  import Expiry
  import Lists
  import ListRuns
  import MixedRuns
  import TimedRuns
  import Sets
  import SortedSets
  import SortedSetRuns
  import Counters

  /** The given keys in one database. */
  function Slots(db: byte, keys: seq<Bytes>): set<Expiry.Slot> {
    set k | k in keys :: Expiry.Slot(db, k)
  }

  class Client {
    var store: Expiry.Store
    var table: map<Expiry.Slot, Expiry.TTL>
    var timers: seq<Expiry.Timer>
    var now: nat

    constructor (contents: Expiry.Store, clock: nat)
      ensures Machine() == Expiry.Initial(contents, clock)
      ensures Valid()
    {
      store, table, timers, now := contents, map[], [], clock;
    }

    ghost function Machine(): Expiry.State
      reads this
    {
      Expiry.State(store, table, timers, now)
    }

    ghost predicate Valid()
      reads this
    {
      Expiry.Valid(Machine())
    }

    /**
     To the timers, a command on one key is a single write to that key: it changes no other
     key and neither the table nor a timer, and it keeps the invariant.
     */
    twostate predicate WroteAt(slot: Expiry.Slot)
      reads this
    {
      && Machine() == Expiry.Step(old(Machine()), Expiry.Write(slot, Expiry.At(store, slot)))
      && (old(Valid()) ==> Valid())
    }

    twostate lemma StoreWritten(slot: Expiry.Slot)
      requires table == old(table) && timers == old(timers) && now == old(now)
      requires store == Expiry.Update(old(store), slot, Expiry.At(store, slot))
      ensures WroteAt(slot)
    {
      if old(Valid()) {
        Expiry.StepKeepsValid(old(Machine()), Expiry.Write(slot, Expiry.At(store, slot)));
      }
    }

    method Put(slot: Expiry.Slot, v: Value)
      modifies this`store
      ensures store == Expiry.Update(old(store), slot, v)
      ensures WroteAt(slot)
    {
      PutRaw(slot, v);
      StoreWritten(slot);
    }

    method PutRaw(slot: Expiry.Slot, v: Value)
      modifies this`store
      ensures store == Expiry.Update(old(store), slot, v) && Expiry.At(store, slot) == v
    {
      if v.Some? {
        store := store[slot := v.value];
      } else {
        store := store - {slot};
      }
    }

    // ----- lists -----

    method LPush(db: byte, key: Bytes, values: seq<Item>) returns (length: int64)
      modifies this`store
      ensures var slot := Expiry.Slot(db, key);
              var r := Lists.LPushBytes(old(Expiry.At(store, Expiry.Slot(db, key))), values);
              if key == [] then length == 0 && store == old(store)
              else length == r.1 && store == Expiry.Update(old(store), slot, r.0)
      ensures WroteAt(Expiry.Slot(db, key))
    {
      SameValue(store, Expiry.Slot(db, key));
      StoreWritten(Expiry.Slot(db, key));
      var slot := Expiry.Slot(db, key);
      var v := Expiry.At(store, slot);
      if key == [] || values == [] {
        return 0;
      }
      if v.Some? {
        var ok, steps := CheckListData(v.value);
        if !ok {
          return 0;
        }
      }
      var newData, newLength := Lists.LPush(v, values);
      Put(slot, Some(newData));
      return newLength;
    }

    method RPush(db: byte, key: Bytes, values: seq<Item>) returns (length: int64)
      modifies this`store
      ensures var slot := Expiry.Slot(db, key);
              var r := Lists.RPushBytes(old(Expiry.At(store, Expiry.Slot(db, key))), values);
              if key == [] then length == 0 && store == old(store)
              else length == r.1 && store == Expiry.Update(old(store), slot, r.0)
      ensures WroteAt(Expiry.Slot(db, key))
    {
      SameValue(store, Expiry.Slot(db, key));
      StoreWritten(Expiry.Slot(db, key));
      var slot := Expiry.Slot(db, key);
      var v := Expiry.At(store, slot);
      if key == [] || values == [] {
        return 0;
      }
      if v.Some? {
        var ok, steps := CheckListData(v.value);
        if !ok {
          return 0;
        }
      }
      var newData, newLength := Lists.RPush(v, values);
      Put(slot, Some(newData));
      return newLength;
    }

    method LPop(db: byte, key: Bytes) returns (item: Option<Item>)
      modifies this`store
      ensures var slot, r := Expiry.Slot(db, key), Lists.LPopBytes(old(Expiry.At(store, Expiry.Slot(db, key))));
              if key == [] then item == None && store == old(store)
              else item == r.1 && store == Expiry.Update(old(store), slot, r.0)
      ensures WroteAt(Expiry.Slot(db, key))
    {
      SameValue(store, Expiry.Slot(db, key));
      StoreWritten(Expiry.Slot(db, key));
      var slot := Expiry.Slot(db, key);
      var v := Expiry.At(store, slot);
      if key == [] || v.None? {
        return None;
      }
      var popped := Lists.LPop(v.value);
      var (v', r) := popped.After(v);
      Put(slot, v');
      return r;
    }

    method RPop(db: byte, key: Bytes) returns (item: Option<Item>)
      modifies this`store
      ensures var slot, r := Expiry.Slot(db, key), Lists.RPopBytes(old(Expiry.At(store, Expiry.Slot(db, key))));
              if key == [] then item == None && store == old(store)
              else item == r.1 && store == Expiry.Update(old(store), slot, r.0)
      ensures WroteAt(Expiry.Slot(db, key))
    {
      SameValue(store, Expiry.Slot(db, key));
      StoreWritten(Expiry.Slot(db, key));
      var slot := Expiry.Slot(db, key);
      var v := Expiry.At(store, slot);
      if key == [] || v.None? {
        return None;
      }
      var popped := Lists.RPop(v.value);
      var (v', r) := popped.After(v);
      Put(slot, v');
      return r;
    }

    method LSet(db: byte, key: Bytes, index: int64, value: Item) returns (ok: bool)
      modifies this`store
      ensures var slot := Expiry.Slot(db, key);
              var r := Lists.LSetBytes(old(Expiry.At(store, Expiry.Slot(db, key))), index, value);
              if key == [] then !ok && store == old(store)
              else ok == r.1 && store == Expiry.Update(old(store), slot, r.0)
      ensures WroteAt(Expiry.Slot(db, key))
    {
      SameValue(store, Expiry.Slot(db, key));
      StoreWritten(Expiry.Slot(db, key));
      var slot := Expiry.Slot(db, key);
      var v := Expiry.At(store, slot);
      if key == [] || v.None? {
        return false;
      }
      var newData := Lists.LSet(v.value, index, value);
      if newData.None? {
        return false;
      }
      Put(slot, newData);
      return true;
    }

    method LIndex(db: byte, key: Bytes, index: int64) returns (item: Option<Item>)
      ensures item == if key == [] then None else Lists.LIndexBytes(Expiry.At(store, Expiry.Slot(db, key)), index)
    {
      var v := Expiry.At(store, Expiry.Slot(db, key));
      if key == [] || v.None? {
        return None;
      }
      item := Lists.LIndex(v.value, index);
    }

    method LRange(db: byte, key: Bytes, start: int64, stop: int64) returns (items: Option<seq<Item>>)
      ensures items ==
              if key == [] then Some([])
              else Lists.LRangeBytes(Expiry.At(store, Expiry.Slot(db, key)), start, stop)
    {
      var v := Expiry.At(store, Expiry.Slot(db, key));
      if key == [] || v.None? {
        return Some([]);
      }
      items := Lists.LRange(v.value, start, stop);
    }

    method LLen(db: byte, key: Bytes) returns (length: int64)
      ensures length == if key == [] then 0 else Lists.LLenBytes(Expiry.At(store, Expiry.Slot(db, key)))
    {
      length := 0;
      if key != [] {
        var v := Expiry.At(store, Expiry.Slot(db, key));
        if v.Some? && |v.value| >= HEADER_SIZE {
          length := Count(v.value);
        }
      }
    }

    // ----- sets -----

    method SAdd(db: byte, key: Bytes, members: seq<Item>) returns (added: int)
      modifies this`store
      ensures var slot := Expiry.Slot(db, key);
              if key == [] then added == 0 && store == old(store)
              else
                && Sets.SAddOutcome(old(Expiry.At(store, slot)), members, Expiry.At(store, slot), added)
                && store == Expiry.Update(old(store), slot, Expiry.At(store, slot))
      ensures WroteAt(Expiry.Slot(db, key))
    {
      SameValue(store, Expiry.Slot(db, key));
      StoreWritten(Expiry.Slot(db, key));
      if key == [] || members == [] {
        return 0;
      }
      var slot := Expiry.Slot(db, key);
      var newData;
      newData, added := Sets.SAdd(Expiry.At(store, slot), members);
      Put(slot, Some(newData));
    }

    method SRem(db: byte, key: Bytes, members: seq<Item>) returns (removed: int)
      modifies this`store
      ensures var slot := Expiry.Slot(db, key);
              if key == [] then removed == 0 && store == old(store)
              else
                && Sets.SRemOutcome(old(Expiry.At(store, slot)), members, Expiry.At(store, slot), removed)
                && store == Expiry.Update(old(store), slot, Expiry.At(store, slot))
      ensures WroteAt(Expiry.Slot(db, key))
    {
      SameValue(store, Expiry.Slot(db, key));
      StoreWritten(Expiry.Slot(db, key));
      if key == [] {
        return 0;
      }
      var slot := Expiry.Slot(db, key);
      var v';
      v', removed := Sets.SRem(Expiry.At(store, slot), members);
      Put(slot, v');
    }

    method SMembers(db: byte, key: Bytes) returns (members: Option<seq<Item>>)
      ensures members == if key == [] then Some([]) else Sets.SMembersBytes(Expiry.At(store, Expiry.Slot(db, key)))
    {
      var v := Expiry.At(store, Expiry.Slot(db, key));
      if key == [] || v.None? {
        return Some([]);
      }
      members := Sets.SMembers(v.value);
    }

    method SIsMember(db: byte, key: Bytes, member: Item) returns (found: bool)
      ensures found <==> key != [] && Sets.SIsMemberBytes(Expiry.At(store, Expiry.Slot(db, key)), member)
    {
      var v := Expiry.At(store, Expiry.Slot(db, key));
      if key == [] || member == [] || v.None? {
        return false;
      }
      found := Sets.SIsMember(v.value, member);
    }

    // ----- sorted sets -----

    method ZAdd(db: byte, key: Bytes, score: uint64, member: Item) returns (added: int)
      modifies this`store
      ensures var slot := Expiry.Slot(db, key);
              if key == [] then added == 0 && store == old(store)
              else
                && SortedSets.ZAddOutcome(old(Expiry.At(store, slot)), score, member, Expiry.At(store, slot), added)
                && store == Expiry.Update(old(store), slot, Expiry.At(store, slot))
      ensures WroteAt(Expiry.Slot(db, key))
    {
      SameValue(store, Expiry.Slot(db, key));
      StoreWritten(Expiry.Slot(db, key));
      if key == [] || member == [] {
        return 0;
      }
      var slot := Expiry.Slot(db, key);
      var newData;
      newData, added := SortedSets.ZAdd(Expiry.At(store, slot), score, member);
      Put(slot, Some(newData));
    }

    method ZRange(db: byte, key: Bytes, start: int64, stop: int64) returns (members: seq<Item>)
      ensures members ==
              if key == [] then []
              else SortedSets.ZRangeBytes(Expiry.At(store, Expiry.Slot(db, key)), start, stop)
    {
      var v := Expiry.At(store, Expiry.Slot(db, key));
      if key == [] || v.None? {
        return [];
      }
      members := SortedSets.ZRange(v.value, start, stop);
    }

    method ZCount(db: byte, key: Bytes, min: uint64, max: uint64) returns (found: int)
      ensures found == if key == [] then 0 else SortedSets.ZCountBytes(Expiry.At(store, Expiry.Slot(db, key)), min, max)
    {
      var v := Expiry.At(store, Expiry.Slot(db, key));
      if key == [] || v.None? {
        return 0;
      }
      found := SortedSets.ZCount(v.value, min, max);
    }

    // ----- integers -----

    method ModifyInteger(db: byte, key: Bytes, c: Counters.Command) returns (result: Option<int64>)
      modifies this`store
      ensures var slot, r := Expiry.Slot(db, key), Counters.CounterStep(old(Expiry.At(store, Expiry.Slot(db, key))), c);
              if key == [] then result == None && store == old(store)
              else result == r.1 && store == Expiry.Update(old(store), slot, r.0)
      ensures WroteAt(Expiry.Slot(db, key))
    {
      SameValue(store, Expiry.Slot(db, key));
      StoreWritten(Expiry.Slot(db, key));
      if key == [] {
        return None;
      }
      var slot := Expiry.Slot(db, key);
      var v';
      v', result := Counters.Execute(Expiry.At(store, slot), c);
      Put(slot, v');
    }

    // ----- keys -----

    /**
     Each key counts once, however often it is named; the counter is 32 bits wide. `accepts`
     stands for the keys the store takes: any other key makes the transaction fail, and then
     the keys deleted before it come back.
     */
    method Del(db: byte, keys: seq<Bytes>, accepts: Bytes -> bool) returns (deleted: Option<uint32>)
      modifies this`store
      ensures |store| <= |old(store)|
      ensures if exists k :: k in keys && !accepts(k) then deleted == None && store == old(store)
              else deleted == Some(Expiry.Wrap32(|old(store)| - |store|)) && store == old(store) - Slots(db, keys)
      ensures old(Valid()) ==> Valid()
    {
      hide Slots, Expiry.Wrap32, Expiry.Valid;
      var start := store;
      var found: uint32 := 0;
      ghost var gone: nat := 0;
      NoSlots(start, db);
      for i := 0 to |keys|
        invariant store == start - Slots(db, keys[..i])
        invariant |store| + gone == |start| && found == Expiry.Wrap32(gone)
        invariant forall k :: k in keys[..i] ==> accepts(k)
        invariant old(Valid()) ==> Valid()
      {
        if !accepts(keys[i]) {
          store := start;
          assert keys[i] in keys;
          return None;
        }
        var removed := DelOne(Expiry.Slot(db, keys[i]));
        SlotsSnoc(start, db, keys, i);
        if removed {
          Expiry.WrapOfSum(gone, 1);
          found, gone := Expiry.Wrap32(found + 1), gone + 1;
        }
      }
      assert keys[..|keys|] == keys && gone == |start| - |store|;
      return Some(found);
    }

    method DelOne(slot: Expiry.Slot) returns (removed: bool)
      modifies this`store
      ensures store == old(store) - {slot}
      ensures |store| == |old(store)| - if removed then 1 else 0
      ensures old(Valid()) ==> Valid()
    {
      ghost var before := store;
      if slot !in store {
        assert store == before - {slot};
        return false;
      }
      Put(slot, None);
      assert before.Keys == store.Keys + {slot};
      return true;
    }

    /** Deletes the first key of the database until none is left. */
    method FlushAll(db: byte)
      modifies this`store
      ensures store == map s | s in old(store) && s.db != db :: old(store)[s]
      ensures old(Valid()) ==> Valid()
    {
      ghost var start := store;
      ghost var others := map s | s in start && s.db != db :: start[s];
      while exists s :: s in store && s.db == db
        invariant forall s :: s in store ==> s in start && store[s] == start[s]
        invariant forall s :: s in others ==> s in store
        invariant old(Valid()) ==> Valid()
        decreases |store|
      {
        var s :| s in store && s.db == db;
        ghost var before := store;
        Put(s, None);
        assert before.Keys == store.Keys + {s};
      }
      assert store == others;
    }

    // ----- expiry -----

    method Expire(slot: Expiry.Slot, secs: uint32)
      requires Valid()
      modifies this`table, this`timers
      ensures Machine() == Expiry.ExpireStep(old(Machine()), slot, secs) && Valid()
    {
      ghost var st := Machine();
      if slot in table {
        CancelTimer(table[slot].timer);
      }
      var id := |timers|;
      timers := timers + [Expiry.Timer(slot, now, secs, true, Expiry.Pending)];
      table := table[slot := Expiry.TTL(Expiry.Wrap32(Expiry.Wrap32(now) + secs), id)];
      Expiry.ExpireKeepsValid(st, slot, secs);
    }

    method CancelTimer(id: nat)
      requires id < |timers|
      modifies this`timers
      ensures timers == old(timers)[id := old(timers)[id].(running := false)]
    {
      timers := timers[id := timers[id].(running := false)];
    }

    method Persist(slot: Expiry.Slot) returns (removed: bool)
      requires Valid()
      modifies this`table, this`timers
      ensures Machine() == Expiry.PersistStep(old(Machine()), slot) && Valid()
      ensures removed <==> slot in old(table)
    {
      ghost var st := Machine();
      Expiry.PersistKeepsValid(st, slot);
      if slot !in table {
        assert Expiry.PersistStep(st, slot).table == st.table;
        return false;
      }
      CancelTimer(table[slot].timer);
      table := table - {slot};
      return true;
    }

    method TTL(slot: Expiry.Slot) returns (secs: uint32)
      ensures secs == Expiry.RemainingReply(Machine(), slot)
    {
      if slot !in table {
        return 0;
      }
      var expire, clock := table[slot].expire, Expiry.Wrap32(now);
      if expire <= clock {
        return 0;
      }
      return expire - clock;
    }

    /** The clock moves on. */
    method Tick()
      modifies this`now
      ensures Machine() == Expiry.Step(old(Machine()), Expiry.Tick)
      ensures old(Valid()) ==> Valid()
    {
      now := now + 1;
    }

    /** First half of a timer's callback: is it still running? */
    method CallbackCheck(id: nat)
      requires Valid() && Expiry.CanCheck(Machine(), id)
      modifies this`timers
      ensures Machine() == Expiry.Step(old(Machine()), Expiry.Check(id)) && Valid()
    {
      Expiry.StepKeepsValid(Machine(), Expiry.Check(id));
      var t := timers[id];
      timers := timers[id := if t.running then t.(phase := Expiry.Checked) else t.(phase := Expiry.Skipped)];
    }

    /**
     Second half: delete the key in the database the timer was registered with. A key that the
     store does not take is not in it.
     */
    method CallbackDelete(id: nat, accepts: Bytes -> bool)
      requires Valid() && Expiry.CanFinish(Machine(), id)
      requires timers[id].slot in store ==> accepts(timers[id].slot.key)
      modifies this`timers, this`store
      ensures Machine() == Expiry.Step(old(Machine()), Expiry.Finish(id)) && Valid()
    {
      ghost var st := Machine();
      FinishStep(st, id);
      Expiry.StepKeepsValid(st, Expiry.Finish(id));
      hide Expiry.Valid, Expiry.Step;
      DelRegistered(timers[id].slot, accepts);
      timers := timers[id := timers[id].(phase := Expiry.Deleted)];
    }

    method DelRegistered(slot: Expiry.Slot, accepts: Bytes -> bool)
      requires slot in store ==> accepts(slot.key)
      modifies this`store
      ensures store == old(store) - {slot}
    {
      hide Slots;
      ghost var before := store;
      var deleted := Del(slot.db, [slot.key], accepts);
      OneSlot(slot);
      assert slot.key in [slot.key];
      assert slot !in before ==> before - {slot} == before;
    }
  }

  lemma SameValue(store: Expiry.Store, slot: Expiry.Slot)
    ensures Expiry.Update(store, slot, Expiry.At(store, slot)) == store
  {
  }

  lemma NoSlots(start: Expiry.Store, db: byte)
    ensures start - Slots(db, []) == start
    ensures Expiry.Wrap32(0) == 0
  {
  }

  lemma FinishStep(st: Expiry.State, id: nat)
    requires Expiry.CanFinish(st, id)
    ensures Expiry.Step(st, Expiry.Finish(id))
         == st.(store := st.store - {st.timers[id].slot},
                timers := st.timers[id := st.timers[id].(phase := Expiry.Deleted)])
  {
  }

  lemma OneSlot(slot: Expiry.Slot)
    ensures Slots(slot.db, [slot.key]) == {slot}
  {
    assert slot.key in [slot.key];
  }

  lemma SlotsSnoc(start: Expiry.Store, db: byte, keys: seq<Bytes>, i: nat)
    requires i < |keys|
    ensures start - Slots(db, keys[..i]) - {Expiry.Slot(db, keys[i])} == start - Slots(db, keys[..i + 1])
    ensures forall k :: k in keys[..i + 1] ==> k in keys[..i] || k == keys[i]
  {
    assert keys[..i + 1] == keys[..i] + [keys[i]];
    assert keys[i] in keys[..i + 1];
    assert Slots(db, keys[..i + 1]) == Slots(db, keys[..i]) + {Expiry.Slot(db, keys[i])};
  }

  /**
   Any sequence of list commands issued through the client: the methods compose to the run
   on bytes, hence to the run on the sequence, and no other key is touched.
   */
  method DriveList(client: Client, slot: Expiry.Slot, cs: seq<ListRuns.Command>) returns (replies: seq<ListRuns.Reply>)
    requires slot.key != []
    requires slot !in client.store && ListRuns.TotalAdds(cs) < TWO_63
    modifies client`store
    ensures var r := ListRuns.RunList([], cs);
            replies == r.1 && client.store == Expiry.Update(old(client.store), slot, ListRuns.Stored(r.0))
  {
    replies := [];
    ghost var start := client.store;
    ghost var v := Expiry.At(start, slot);
    for i := 0 to |cs|
      invariant client.store == Expiry.Update(start, slot, Expiry.At(client.store, slot))
      invariant (Expiry.At(client.store, slot), replies) == ListRuns.RunBytes(v, cs[..i])
    {
      ghost var before := client.store;
      var r := Issue(client, slot, cs[i]);
      RunBytesSnoc(v, cs[..i], cs[i]);
      assert cs[..i + 1] == cs[..i] + [cs[i]];
      replies := replies + [r];
    }
    assert cs[..|cs|] == cs;
    ListRuns.DequeRefinement([], cs);
  }

  method Issue(client: Client, slot: Expiry.Slot, c: ListRuns.Command) returns (r: ListRuns.Reply)
    requires slot.key != []
    modifies client`store
    ensures (Expiry.At(client.store, slot), r) == ListRuns.ByteStep(old(Expiry.At(client.store, slot)), c)
    ensures client.store == Expiry.Update(old(client.store), slot, Expiry.At(client.store, slot))
  {
    match c {
      case PushLeft(values) =>
        var n := client.LPush(slot.db, slot.key, values);
        r := ListRuns.Number(n);
      case PushRight(values) =>
        var n := client.RPush(slot.db, slot.key, values);
        r := ListRuns.Number(n);
      case PopLeft =>
        var x := client.LPop(slot.db, slot.key);
        r := ListRuns.BulkOrNotFound(x);
      case PopRight =>
        var x := client.RPop(slot.db, slot.key);
        r := ListRuns.BulkOrNotFound(x);
      case SetAt(i, x) =>
        var ok := client.LSet(slot.db, slot.key, i, x);
        r := if ok then ListRuns.Done else ListRuns.NotFound;
      case IndexAt(i) =>
        var x := client.LIndex(slot.db, slot.key, i);
        r := ListRuns.BulkOrNotFound(x);
      case Range(a, b) =>
        var xs := client.LRange(slot.db, slot.key, a, b);
        r := if xs.Some? then ListRuns.Array(xs.value) else ListRuns.NotFound;
      case Length =>
        var n := client.LLen(slot.db, slot.key);
        r := ListRuns.Number(n);
    }
  }

  lemma {:induction false} RunBytesSnoc(v: Value, cs: seq<ListRuns.Command>, c: ListRuns.Command)
    ensures ListRuns.RunBytes(v, cs + [c])
         == var (v', rs) := ListRuns.RunBytes(v, cs);
            (ListRuns.ByteStep(v', c).0, rs + [ListRuns.ByteStep(v', c).1])
    decreases |cs|
  {
    hide ListRuns.ByteStep;
    if cs == [] {
      assert cs + [c] == [c] && [c][1..] == [];
      var (v', r) := ListRuns.ByteStep(v, c);
      assert ListRuns.RunBytes(v', []) == (v', []);
      assert [r] + [] == [] + [r];
    } else {
      assert (cs + [c])[1..] == cs[1..] + [c];
      var (v1, r) := ListRuns.ByteStep(v, cs[0]);
      RunBytesSnoc(v1, cs[1..], c);
      var (v', rs) := ListRuns.RunBytes(v1, cs[1..]);
      assert [r] + (rs + [ListRuns.ByteStep(v', c).1]) == [r] + rs + [ListRuns.ByteStep(v', c).1];
    }
  }

  method IssueMixed(client: Client, slot: Expiry.Slot, c: MixedRuns.Command) returns (r: MixedRuns.Reply)
    requires slot.key != []
    modifies client`store
    ensures MixedRuns.Step(old(Expiry.At(client.store, slot)), c, Expiry.At(client.store, slot), r)
    ensures client.store == Expiry.Update(old(client.store), slot, Expiry.At(client.store, slot))
  {
    hide ListRuns.ByteStep;
    SameValue(client.store, slot);
    match c {
      case OnList(list) =>
        var reply := Issue(client, slot, list);
        r := MixedRuns.FromList(reply);
      case OnSet(Add(members)) =>
        var n := client.SAdd(slot.db, slot.key, members);
        r := MixedRuns.FromSet(n);
      case OnSet(Remove(members)) =>
        var n := client.SRem(slot.db, slot.key, members);
        r := MixedRuns.FromSet(n);
    }
  }

  /** Any sequence of list and set calls on an absent key is a mixed run of a sequence. */
  method DriveMixed(client: Client, slot: Expiry.Slot, cs: seq<MixedRuns.Command>)
      returns (replies: seq<MixedRuns.Reply>)
    requires slot.key != []
    requires slot !in client.store && MixedRuns.TotalAdds(cs) < TWO_63
    modifies client`store
    ensures client.store == Expiry.Update(old(client.store), slot, Expiry.At(client.store, slot))
    ensures exists xs :: Expiry.At(client.store, slot) == ListRuns.Stored(xs) && MixedRuns.SeqRun([], cs, xs, replies)
  {
    hide MixedRuns.Run, MixedRuns.Step, MixedRuns.SeqRun, MixedRuns.TotalAdds;
    replies := [];
    ghost var start := client.store;
    SameValue(start, slot);
    MixedRunEmpty(None);
    for i := 0 to |cs|
      invariant client.store == Expiry.Update(start, slot, Expiry.At(client.store, slot))
      invariant MixedRuns.Run(None, cs[..i], Expiry.At(client.store, slot), replies)
    {
      ghost var mid := Expiry.At(client.store, slot);
      var r := IssueMixed(client, slot, cs[i]);
      MixedRuns.RunSnoc(None, cs[..i], mid, replies, cs[i], Expiry.At(client.store, slot), r);
      assert cs[..i + 1] == cs[..i] + [cs[i]];
      replies := replies + [r];
    }
    assert cs[..|cs|] == cs && ListRuns.Stored([]) == None;
    MixedRuns.MixedRefinement([], cs, Expiry.At(client.store, slot), replies);
  }

  lemma MixedRunEmpty(v: Value)
    ensures MixedRuns.Run(v, [], v, [])
  {
  }

  /** Any sequence of ZADD calls on an absent key is a run of additions. */
  method DriveSorted(client: Client, slot: Expiry.Slot, adds: seq<SortedSetRuns.Addition>)
      returns (replies: seq<int>)
    requires slot.key != [] && slot !in client.store
    modifies client`store
    ensures client.store == Expiry.Update(old(client.store), slot, Expiry.At(client.store, slot))
    ensures SortedSetRuns.Run(None, adds, Expiry.At(client.store, slot), replies)
  {
    hide SortedSetRuns.Run, SortedSets.ZAddOutcome;
    replies := [];
    ghost var start := client.store;
    SameValue(start, slot);
    SortedRunEmpty(None);
    for i := 0 to |adds|
      invariant client.store == Expiry.Update(start, slot, Expiry.At(client.store, slot))
      invariant SortedSetRuns.Run(None, adds[..i], Expiry.At(client.store, slot), replies)
    {
      ghost var mid := Expiry.At(client.store, slot);
      var r := client.ZAdd(slot.db, slot.key, adds[i].score, adds[i].member);
      SortedSetRuns.RunSnoc(None, adds[..i], mid, replies, adds[i], Expiry.At(client.store, slot), r);
      assert adds[..i + 1] == adds[..i] + [adds[i]];
      replies := replies + [r];
    }
    assert adds[..|adds|] == adds;
  }

  lemma SortedRunEmpty(v: Value)
    ensures SortedSetRuns.Run(v, [], v, [])
  {
  }

  /** Any sequence of counter calls is a run of counter steps. */
  method DriveCounter(client: Client, slot: Expiry.Slot, cs: seq<Counters.Command>)
      returns (replies: seq<Option<int64>>)
    requires slot.key != []
    modifies client`store
    ensures var r := Counters.Run(old(Expiry.At(client.store, slot)), cs);
            replies == r.1 && client.store == Expiry.Update(old(client.store), slot, r.0)
  {
    hide Counters.CounterStep;
    replies := [];
    ghost var start := client.store;
    ghost var v := Expiry.At(start, slot);
    SameValue(start, slot);
    for i := 0 to |cs|
      invariant client.store == Expiry.Update(start, slot, Expiry.At(client.store, slot))
      invariant (Expiry.At(client.store, slot), replies) == Counters.Run(v, cs[..i])
    {
      var r := client.ModifyInteger(slot.db, slot.key, cs[i]);
      Counters.RunSnoc(v, cs[..i], cs[i]);
      assert cs[..i + 1] == cs[..i] + [cs[i]];
      replies := replies + [r];
    }
    assert cs[..|cs|] == cs;
  }

  /** Calls, clock ticks and callback halves in any order are a run of the expiry machine. */
  method DriveTimers(client: Client, acts: seq<Expiry.Action>)
    requires client.Valid()
    modifies client
    ensures client.Machine() == Expiry.Run(old(client.Machine()), acts) && client.Valid()
  {
    ghost var start := client.Machine();
    for i := 0 to |acts|
      invariant client.Valid()
      invariant client.Machine() == Expiry.Run(start, acts[..i])
    {
      IssueAction(client, acts[i]);
      assert acts[..i + 1][..i] == acts[..i];
    }
    assert acts[..|acts|] == acts;
  }

  method IssueAction(client: Client, a: Expiry.Action)
    requires client.Valid()
    modifies client
    ensures client.Machine() == Expiry.Step(old(client.Machine()), a) && client.Valid()
  {
    hide Expiry.Valid;
    match a {
      case Expire(slot, secs) => client.Expire(slot, secs);
      case Persist(slot) =>
        var removed := client.Persist(slot);
      case Tick => client.Tick();
      case Check(id) =>
        if
          && id < |client.timers|
          && client.timers[id].phase == Expiry.Pending
          && client.now >= client.timers[id].Deadline()
        {
          client.CallbackCheck(id);
        }
      case Finish(id) =>
        if id < |client.timers| && client.timers[id].phase == Expiry.Checked {
          client.CallbackDelete(id, k => true);
        }
      case Write(slot, v) => client.Put(slot, v);
    }
  }

  /**
   Commands on one key, and everything the timers do, as methods of the client in any order:
   the key holds what a sequence would that is emptied whenever a timer of the key deletes.
   */
  method DriveTimed(client: Client, slot: Expiry.Slot, es: seq<TimedRuns.Event>) returns (replies: seq<TimedRuns.Reply>)
    requires client.Valid() && slot.key != [] && slot !in client.store
    requires TimedRuns.TotalAdds(es) < TWO_63 && forall e :: e in es ==> TimedRuns.Proper(e, slot)
    modifies client
    ensures client.Valid()
    ensures exists s' :: client.Machine() == TimedRuns.Join(s', slot)
                      && TimedRuns.SplitRun(TimedRuns.Split(old(client.Machine()), []), slot, es, s', replies)
  {
    hide TimedRuns.Step, TimedRuns.SplitRun, TimedRuns.Proper, TimedRuns.TotalAdds, Expiry.Valid;
    replies := [];
    ghost var start := client.Machine();
    for i := 0 to |es|
      invariant client.Valid()
      invariant TimedRuns.Run(start, slot, es[..i], client.Machine(), replies)
    {
      ghost var mid := client.Machine();
      var r := IssueEvent(client, slot, es[i]);
      ghost var before := replies;
      replies := replies + [r];
      assert es[..i + 1][..i] == es[..i] && replies[..i] == before;
    }
    assert es[..|es|] == es && ListRuns.Stored([]) == None;
    assert start == TimedRuns.Join(TimedRuns.Split(start, []), slot);
    TimedRuns.TimedRefinement(TimedRuns.Split(start, []), slot, es, client.Machine(), replies);
  }

  method IssueEvent(client: Client, slot: Expiry.Slot, e: TimedRuns.Event) returns (r: TimedRuns.Reply)
    requires client.Valid() && slot.key != []
    modifies client
    ensures TimedRuns.Step(old(client.Machine()), slot, e, client.Machine(), r) && client.Valid()
  {
    hide MixedRuns.Step, Expiry.Valid;
    match e {
      case Call(c) =>
        ghost var before := client.Machine();
        var reply := IssueMixed(client, slot, c);
        Expiry.StepKeepsValid(before, Expiry.Write(slot, Expiry.At(client.store, slot)));
        r := Some(reply);
      case Other(a) =>
        IssueAction(client, a);
        r := None;
    }
  }
}
