/**
 Expiry: a table of deadlines guarded by a lock, and timers that run beside it. A timer is
 cancelled by clearing its flag; its callback first tests the flag and then, in a second step
 that anything may precede, deletes the key it was registered with. Commands on the store
 (`Write`) never look at the table or the timers.
 */
module Expiry {
  import opened Bytes
  import opened Codec

  /** A key in one of the numbered databases. */
  datatype Slot = Slot(db: byte, key: Bytes)

  type Store = map<Slot, Bytes>

  datatype Phase =
    | Pending   // the callback has not run
    | Checked   // it found the flag set and is about to delete
    | Deleted   // it has deleted
    | Skipped   // it found the flag cleared

  datatype Timer = Timer(slot: Slot, created: nat, secs: uint32, running: bool, phase: Phase) {
    function Deadline(): nat {
      created + secs
    }
  }

  datatype TTL = TTL(expire: uint32, timer: nat)

  datatype State = State(store: Store, table: map<Slot, TTL>, timers: seq<Timer>, now: nat)

  datatype Action =
    | Expire(slot: Slot, secs: uint32)
    | Persist(slot: Slot)
    | Tick
    | Check(id: nat)
    | Finish(id: nat)
    | Write(slot: Slot, v: Value)

  function Wrap32(n: nat): uint32 {
    n % 0x1_0000_0000
  }

  function At(store: Store, slot: Slot): Value {
    if slot in store then Some(store[slot]) else None
  }

  function Update(store: Store, slot: Slot, v: Value): Store {
    if v.Some? then store[slot := v.value] else store - {slot}
  }

  /** Clear the flag of the timer the table has for the slot, if any. */
  function Cancel(st: State, slot: Slot): seq<Timer> {
    if slot in st.table && st.table[slot].timer < |st.timers|
    then st.timers[st.table[slot].timer := st.timers[st.table[slot].timer].(running := false)]
    else st.timers
  }

  function ExpireStep(st: State, slot: Slot, secs: uint32): State {
    st.(timers := Cancel(st, slot) + [Timer(slot, st.now, secs, true, Pending)],
        table := st.table[slot := TTL(Wrap32(Wrap32(st.now) + secs), |st.timers|)])
  }

  function PersistStep(st: State, slot: Slot): State {
    st.(timers := Cancel(st, slot), table := st.table - {slot})
  }

  predicate CanCheck(st: State, id: nat) {
    id < |st.timers| && st.timers[id].phase == Pending && st.now >= st.timers[id].Deadline()
  }

  predicate CanFinish(st: State, id: nat) {
    id < |st.timers| && st.timers[id].phase == Checked
  }

  /** An action that is not enabled changes nothing. */
  function Step(st: State, a: Action): State {
    match a
    case Expire(slot, secs) => ExpireStep(st, slot, secs)
    case Persist(slot) => PersistStep(st, slot)
    case Tick => st.(now := st.now + 1)
    case Check(id) =>
      if CanCheck(st, id)
      then st.(timers := st.timers[id := st.timers[id].(phase := if st.timers[id].running then Checked else Skipped)])
      else st
    case Finish(id) =>
      if CanFinish(st, id)
      then st.(timers := st.timers[id := st.timers[id].(phase := Deleted)],
               store := st.store - {st.timers[id].slot})
      else st
    case Write(slot, v) => st.(store := Update(st.store, slot, v))
  }

  function Run(st: State, acts: seq<Action>): State
    decreases |acts|
  {
    if acts == [] then st else Step(Run(st, acts[..|acts| - 1]), acts[|acts| - 1])
  }

  /** The remaining seconds TTL reports, in 32-bit arithmetic; 0 when there are none. */
  function RemainingReply(st: State, slot: Slot): uint32 {
    if slot !in st.table then 0
    else
      var now, expire := Wrap32(st.now), st.table[slot].expire;
      if expire <= now then 0 else expire - now
  }

  // ----- the invariant -----

  /** Each table entry points at a live timer of its slot, with that timer's deadline. */
  ghost predicate TableValid(st: State) {
    forall slot :: slot in st.table ==>
      var e := st.table[slot];
      && e.timer < |st.timers|
      && var t := st.timers[e.timer];
         t.slot == slot && t.running && e.expire == Wrap32(t.Deadline())
  }

  /** Every timer whose flag is set is the one in the table for its slot. */
  ghost predicate RunningListed(st: State) {
    forall id :: 0 <= id < |st.timers| && st.timers[id].running ==>
      st.timers[id].slot in st.table && st.table[st.timers[id].slot].timer == id
  }

  /** No callback has got past its check before its deadline. */
  ghost predicate OnTime(st: State) {
    forall id :: 0 <= id < |st.timers| ==>
      var t := st.timers[id];
      t.created <= st.now && (t.phase == Checked || t.phase == Deleted ==> t.Deadline() <= st.now)
  }

  ghost predicate Valid(st: State) {
    TableValid(st) && RunningListed(st) && OnTime(st)
  }

  function Initial(store: Store, now: nat): State {
    State(store, map[], [], now)
  }

  lemma WrapOfSum(n: nat, secs: uint32)
    ensures Wrap32(Wrap32(n) + secs) == Wrap32(n + secs)
  {
    assert n == 0x1_0000_0000 * (n / 0x1_0000_0000) + n % 0x1_0000_0000;
  }

  lemma ExpireKeepsTable(st: State, slot: Slot, secs: uint32)
    requires TableValid(st) && RunningListed(st)
    ensures TableValid(ExpireStep(st, slot, secs))
  {
    hide Wrap32;
    WrapOfSum(st.now, secs);
  }

  lemma ExpireKeepsListing(st: State, slot: Slot, secs: uint32)
    requires TableValid(st) && RunningListed(st)
    ensures RunningListed(ExpireStep(st, slot, secs))
  {
    hide Wrap32;
  }

  lemma ExpireKeepsValid(st: State, slot: Slot, secs: uint32)
    requires Valid(st)
    ensures Valid(ExpireStep(st, slot, secs))
  {
    ExpireKeepsTable(st, slot, secs);
    ExpireKeepsListing(st, slot, secs);
    hide TableValid, RunningListed, Wrap32;
  }

  lemma PersistKeepsValid(st: State, slot: Slot)
    requires Valid(st)
    ensures Valid(PersistStep(st, slot))
  {
    hide Wrap32;
    var st' := PersistStep(st, slot);
    assert TableValid(st') && RunningListed(st') && OnTime(st');
  }

  /** Every interleaving of commands, ticks and callback steps keeps the invariant. */
  lemma StepKeepsValid(st: State, a: Action)
    requires Valid(st)
    ensures Valid(Step(st, a))
  {
    hide Wrap32;
    match a
    case Expire(slot, secs) => ExpireKeepsValid(st, slot, secs);
    case Persist(slot) => PersistKeepsValid(st, slot);
    case Tick =>
    case Check(id) =>
    case Finish(id) =>
    case Write(slot, v) =>
  }

  lemma {:induction false} RunKeepsValid(st: State, acts: seq<Action>)
    requires Valid(st)
    ensures Valid(Run(st, acts))
    decreases |acts|
  {
    if acts == [] {
    } else {
      RunKeepsValid(st, acts[..|acts| - 1]);
      StepKeepsValid(Run(st, acts[..|acts| - 1]), acts[|acts| - 1]);
    }
  }

  // ----- what a step can do to a timer, and to a key -----

  /** The actions that replace or remove the timer of a slot. */
  predicate Supersedes(a: Action, slot: Slot) {
    (a.Expire? || a.Persist?) && a.slot == slot
  }

  lemma TimerStep(st: State, a: Action, id: nat)
    requires Valid(st) && id < |st.timers|
    ensures id < |Step(st, a).timers|
    ensures var t, t' := st.timers[id], Step(st, a).timers[id];
            && t'.slot == t.slot && t'.created == t.created && t'.secs == t.secs
            && (t'.running <==> t.running && !Supersedes(a, t.slot))
            && (t'.phase != t.phase ==>
                 if t.phase == Pending
                 then a == Check(id) && CanCheck(st, id) && t'.phase == (if t.running then Checked else Skipped)
                 else a == Finish(id) && t.phase == Checked && t'.phase == Deleted)
  {
  }

  /**
   A key disappears only by a command on that very slot or by the callback of a timer that
   was registered for that very database and key and has passed its check.
   */
  lemma DeletionsHitTheirSlot(st: State, a: Action, slot: Slot)
    requires slot in st.store && slot !in Step(st, a).store
    ensures a == Write(slot, None)
         || (a.Finish? && CanFinish(st, a.id) && st.timers[a.id].slot == slot)
  {
  }

  /** Cancelled before its check, or already done. */
  predicate Harmless(t: Timer) {
    t.phase == Deleted || t.phase == Skipped || (!t.running && t.phase == Pending)
  }

  /** A harmless timer stays harmless for ever. */
  lemma {:induction false} HarmlessForEver(st: State, id: nat, acts: seq<Action>)
    requires Valid(st) && id < |st.timers| && Harmless(st.timers[id])
    ensures id < |Run(st, acts).timers| && Harmless(Run(st, acts).timers[id])
    decreases |acts|
  {
    if acts == [] {
    } else {
      var before := acts[..|acts| - 1];
      HarmlessForEver(st, id, before);
      RunKeepsValid(st, before);
      TimerStep(Run(st, before), acts[|acts| - 1], id);
    }
  }

  lemma RunSnoc(st: State, acts: seq<Action>, a: Action)
    ensures Run(st, acts + [a]) == Step(Run(st, acts), a)
  {
    assert (acts + [a])[..|acts|] == acts;
  }

  function Ticks(n: nat): (acts: seq<Action>)
    ensures |acts| == n
  {
    if n == 0 then [] else Ticks(n - 1) + [Tick]
  }

  lemma {:induction false} TicksOnlyTick(st: State, n: nat)
    ensures Run(st, Ticks(n)) == st.(now := st.now + n)
  {
    assert Run(st, []) == st;
    hide Run, ExpireStep, PersistStep, Update;
    if n == 0 {
    } else {
      TicksOnlyTick(st, n - 1);
      RunSnoc(st, Ticks(n - 1), Tick);
    }
  }

  /** Wait for the deadline, then check. */
  lemma DeletionAhead(st: State, id: nat) returns (acts: seq<Action>)
    requires id < |st.timers| && !Harmless(st.timers[id])
    ensures CanFinish(Run(st, acts), id)
  {
    if st.timers[id].phase == Checked {
      acts := [];
      assert Run(st, []) == st;
    } else {
      var n := st.timers[id].Deadline();
      acts := Ticks(n) + [Check(id)];
      TicksOnlyTick(st, n);
      RunSnoc(st, Ticks(n), Check(id));
      hide Run;
    }
  }

  /** A timer can still come to delete its key exactly when it is not harmless. */
  lemma CanStillDelete(st: State, id: nat)
    requires Valid(st) && id < |st.timers|
    ensures (exists acts :: CanFinish(Run(st, acts), id)) <==> !Harmless(st.timers[id])
  {
    hide Run, Valid;
    if Harmless(st.timers[id]) {
      forall acts ensures !CanFinish(Run(st, acts), id) {
        HarmlessForEver(st, id, acts);
      }
    } else {
      var acts := DeletionAhead(st, id);
    }
  }

  /**
   After a PERSIST or a newer EXPIRE of its key, a timer can still delete the key exactly
   when its callback had passed the check and not yet deleted at that moment.
   */
  lemma SupersededTooLateExactly(st: State, a: Action, id: nat)
    requires Valid(st) && id < |st.timers| && Supersedes(a, st.timers[id].slot)
    ensures (exists acts :: CanFinish(Run(Step(st, a), acts), id)) <==> st.timers[id].phase == Checked
  {
    TimerStep(st, a, id);
    StepKeepsValid(st, a);
    CanStillDelete(Step(st, a), id);
  }

  /**
   The window is reachable: EXPIRE, the first half of the callback, then PERSIST, which finds
   the entry and so answers yes, then the second half, which deletes the key.
   */
  lemma PersistCanComeTooLate(slot: Slot, value: Bytes)
    ensures var st := Run(Initial(map[slot := value], 0), [Expire(slot, 0), Check(0)]);
            && slot in st.table && slot in st.store && CanFinish(st, 0)
            && slot !in Run(st, [Persist(slot), Finish(0)]).store
  {
    var st := Run(Initial(map[slot := value], 0), [Expire(slot, 0), Check(0)]);
    RunTwo(Initial(map[slot := value], 0), Expire(slot, 0), Check(0));
    RunTwo(st, Persist(slot), Finish(0));
  }

  lemma RunOne(st: State, a: Action)
    ensures Run(st, [a]) == Step(st, a)
  {
    assert [a][..0] == [];
    assert Run(st, []) == st;
  }

  lemma RunTwo(st: State, a: Action, b: Action)
    ensures Run(st, [a, b]) == Step(Step(st, a), b)
  {
    assert [a, b][..1] == [a] && [a][..0] == [];
    assert Run(st, [a]) == Step(Run(st, []), a);
  }

  // ----- where a deletion comes from -----

  /** Timer `id` was created by action `i` of the run, an EXPIRE of its slot at that time. */
  ghost predicate BornAt(st: State, acts: seq<Action>, id: nat, i: nat) {
    && i < |acts| && id < |Run(st, acts).timers|
    && var t := Run(st, acts).timers[id];
       && |Run(st, acts[..i]).timers| == id
       && acts[i] == Expire(t.slot, t.secs)
       && t.created == Run(st, acts[..i]).now
  }

  ghost predicate Untouched(acts: seq<Action>, slot: Slot, i: nat, j: nat)
    requires j <= |acts|
  {
    forall k :: i < k < j ==> !Supersedes(acts[k], slot)
  }

  /** A birth stays where it was when the run goes on. */
  lemma BirthKept(st: State, acts: seq<Action>, id: nat, i: nat)
    requires Valid(st) && acts != []
    requires BornAt(st, acts[..|acts| - 1], id, i)
    ensures BornAt(st, acts, id, i)
  {
    hide Step;
    var before := acts[..|acts| - 1];
    RunKeepsValid(st, before);
    TimerStep(Run(st, before), acts[|acts| - 1], id);
    assert before[..i] == acts[..i];
  }

  lemma BirthNow(st: State, acts: seq<Action>, id: nat)
    requires acts != [] && id < |Run(st, acts).timers|
    requires id >= |Run(st, acts[..|acts| - 1]).timers|
    ensures BornAt(st, acts, id, |acts| - 1)
  {
    assert acts[|acts| - 1].Expire?;
  }

  lemma UntouchedSnoc(acts: seq<Action>, slot: Slot, i: nat)
    requires acts != [] && Untouched(acts[..|acts| - 1], slot, i, |acts| - 1)
    requires !Supersedes(acts[|acts| - 1], slot)
    ensures Untouched(acts, slot, i, |acts|)
  {
    forall k | i < k < |acts| ensures !Supersedes(acts[k], slot) {
      assert k < |acts| - 1 ==> acts[k] == acts[..|acts| - 1][k];
    }
  }

  /** Every timer of a run has a birth, and while its flag is set nothing superseded it. */
  lemma {:induction false} Birth(st: State, acts: seq<Action>, id: nat) returns (i: nat)
    requires Valid(st) && |st.timers| == 0
    requires id < |Run(st, acts).timers|
    ensures BornAt(st, acts, id, i)
    ensures Run(st, acts).timers[id].running ==> Untouched(acts, Run(st, acts).timers[id].slot, i, |acts|)
    decreases |acts|
  {
    hide Valid, Step, BornAt, Untouched, Supersedes;
    var n := |acts| - 1;
    var before := acts[..n];
    var mid := Run(st, before);
    RunKeepsValid(st, before);
    if id < |mid.timers| {
      i := Birth(st, before, id);
      BirthKept(st, acts, id, i);
      TimerStep(mid, acts[n], id);
      if Run(st, acts).timers[id].running {
        UntouchedSnoc(acts, mid.timers[id].slot, i);
      }
    } else {
      i := n;
      BirthNow(st, acts, id);
      UntouchedEmpty(acts, Run(st, acts).timers[id].slot);
    }
  }

  lemma UntouchedEmpty(acts: seq<Action>, slot: Slot)
    requires acts != []
    ensures Untouched(acts, slot, |acts| - 1, |acts|)
  {
  }

  /** A callback past its check is that of a timer that existed before the last action. */
  lemma CheckedIsOld(st: State, a: Action, id: nat)
    requires id < |Step(st, a).timers| && Step(st, a).timers[id].phase != Pending
    ensures id < |st.timers|
  {
  }

  /**
   Provenance: if the callback of timer `id` is past its check, then the run contains the
   EXPIRE that registered it and, later, the check itself, at least the requested number of
   seconds apart; and in between nobody persisted the key or gave it a newer EXPIRE.
   */
  lemma {:induction false} Provenance(st: State, acts: seq<Action>, id: nat) returns (i: nat, j: nat)
    requires Valid(st) && |st.timers| == 0
    requires id < |Run(st, acts).timers|
    requires Run(st, acts).timers[id].phase == Checked || Run(st, acts).timers[id].phase == Deleted
    ensures i < j < |acts|
    ensures BornAt(st, acts, id, i) && acts[j] == Check(id)
    ensures Run(st, acts[..j]).now >= Run(st, acts[..i]).now + acts[i].secs
    ensures Untouched(acts, acts[i].slot, i, j)
    decreases |acts|
  {
    hide Step, Valid;
    var n := |acts| - 1;
    var before := acts[..n];
    var mid := Run(st, before);
    RunKeepsValid(st, before);
    CheckedIsOld(mid, acts[n], id);
    TimerStep(mid, acts[n], id);
    if mid.timers[id].phase == Pending {
      i := Birth(st, before, id);
      j := n;
    } else {
      i, j := Provenance(st, before, id);
    }
    BirthKept(st, acts, id, i);
    assert before[..i] == acts[..i] && before[..j] == acts[..j];
  }

  /**
   The key was deleted by action `k`: a command deleting it, or the second half of a callback
   with its whole chain before it: the EXPIRE of that very key at `i`, the check at `j` at
   least the requested number of seconds later, and nothing superseding in between.
   */
  ghost predicate DeletedBy(st: State, acts: seq<Action>, slot: Slot, i: nat, j: nat, k: nat) {
    && k < |acts|
    && (|| acts[k] == Write(slot, None)
        || (&& acts[k].Finish?
            && i < j < k
            && acts[i].Expire? && acts[i].slot == slot && |Run(st, acts[..i]).timers| == acts[k].id
            && acts[j] == Check(acts[k].id)
            && Run(st, acts[..j]).now >= Run(st, acts[..i]).now + acts[i].secs
            && Untouched(acts, slot, i, j)))
  }

  lemma DeletedByKept(st: State, acts: seq<Action>, slot: Slot, i: nat, j: nat, k: nat)
    requires acts != [] && DeletedBy(st, acts[..|acts| - 1], slot, i, j, k)
    ensures DeletedBy(st, acts, slot, i, j, k)
  {
    hide Run;
    var before := acts[..|acts| - 1];
    if acts[k].Finish? {
      assert before[..i] == acts[..i] && before[..j] == acts[..j];
    }
  }

  /**
   No key disappears without a cause: whenever a key present at the start of a run is absent
   at its end, the run holds a command that deleted it or the full history of a timer that did.
   */
  lemma {:induction false} NoUnexplainedDeletion(st: State, acts: seq<Action>, slot: Slot)
      returns (i: nat, j: nat, k: nat)
    requires Valid(st) && |st.timers| == 0
    requires slot in st.store && slot !in Run(st, acts).store
    ensures DeletedBy(st, acts, slot, i, j, k)
    decreases |acts|
  {
    hide Step, Valid;
    var n := |acts| - 1;
    var before := acts[..n];
    var mid := Run(st, before);
    if slot !in mid.store {
      hide DeletedBy;
      i, j, k := NoUnexplainedDeletion(st, before, slot);
      DeletedByKept(st, acts, slot, i, j, k);
    } else {
      i, j, k := 0, 0, n;
      DeletionsHitTheirSlot(mid, acts[n], slot);
      if acts[n].Finish? {
        i, j := Provenance(st, before, acts[n].id);
        assert before[..i] == acts[..i] && before[..j] == acts[..j];
      }
    }
  }

  /** What the last command on the slot left there; what was there before, if there was none. */
  function LastWritten(v: Value, acts: seq<Action>, slot: Slot): Value
    decreases |acts|
  {
    if acts == [] then v
    else
      var last := acts[|acts| - 1];
      if last.Write? && last.slot == slot then last.v else LastWritten(v, acts[..|acts| - 1], slot)
  }

  /**
   Timers remove values and never alter one: after any run a key holds what the last command
   on it left there, or nothing.
   */
  lemma {:induction false} OnlyRemoved(st: State, acts: seq<Action>, slot: Slot)
    ensures var v := At(Run(st, acts).store, slot); v == None || v == LastWritten(At(st.store, slot), acts, slot)
    decreases |acts|
  {
    if acts == [] {
    } else {
      OnlyRemoved(st, acts[..|acts| - 1], slot);
    }
  }

  // ----- what disarms a timer, and what does not -----

  /**
   A pending live timer that is not checked stays as it is, except that its flag is cleared
   exactly when its key was persisted or given a newer EXPIRE.
   */
  lemma {:induction false} OnlySupersedingDisarms(st: State, id: nat, acts: seq<Action>)
    requires Valid(st) && id < |st.timers|
    requires st.timers[id].running && st.timers[id].phase == Pending && Check(id) !in acts
    ensures id < |Run(st, acts).timers|
    ensures Run(st, acts).timers[id]
         == st.timers[id].(running := forall a :: a in acts ==> !Supersedes(a, st.timers[id].slot))
    decreases |acts|
  {
    if acts == [] {
    } else {
      var before, last := acts[..|acts| - 1], acts[|acts| - 1];
      assert acts == before + [last];
      OnlySupersedingDisarms(st, id, before);
      RunKeepsValid(st, before);
      TimerStep(Run(st, before), last, id);
      SnocForall(before, last, st.timers[id].slot);
    }
  }

  lemma SnocForall(before: seq<Action>, last: Action, slot: Slot)
    ensures (forall a :: a in before + [last] ==> !Supersedes(a, slot))
       <==> (forall a :: a in before ==> !Supersedes(a, slot)) && !Supersedes(last, slot)
  {
    assert last in before + [last];
    assert forall a :: a in before ==> a in before + [last];
  }

  /**
   When its deadline is reached, an unchecked timer goes on to delete exactly when nothing in
   the run superseded it. No write to the store disarms it, nor anything done to other keys.
   */
  lemma DisarmedExactly(st: State, id: nat, acts: seq<Action>)
    requires Valid(st) && id < |st.timers|
    requires st.timers[id].running && st.timers[id].phase == Pending && Check(id) !in acts
    requires Run(st, acts).now >= st.timers[id].Deadline()
    ensures CanFinish(Run(Run(st, acts), [Check(id)]), id)
       <==> forall a :: a in acts ==> !Supersedes(a, st.timers[id].slot)
  {
    OnlySupersedingDisarms(st, id, acts);
    RunOne(Run(st, acts), Check(id));
  }

  /**
   The due timer then deletes whatever value the key holds by now, and leaves its table entry
   behind. In particular DEL and SET before the deadline make no difference.
   */
  lemma DueTimerDeletesAnyValue(st: State, id: nat, acts: seq<Action>)
    requires Valid(st) && id < |st.timers|
    requires st.timers[id].running && st.timers[id].phase == Pending && Check(id) !in acts
    requires forall a :: a in acts ==> !Supersedes(a, st.timers[id].slot)
    requires Run(st, acts).now >= st.timers[id].Deadline()
    ensures var slot, mid := st.timers[id].slot, Run(st, acts);
            var st' := Run(mid, [Check(id), Finish(id)]);
            st'.store == mid.store - {slot} && slot in st'.table
  {
    OnlySupersedingDisarms(st, id, acts);
    RunKeepsValid(st, acts);
    RunTwo(Run(st, acts), Check(id), Finish(id));
  }

  // ----- TTL -----

  /** The seconds that really remain until the timer of the slot is due. */
  function Remaining(t: Timer, now: nat): nat {
    if now < t.Deadline() then t.Deadline() - now else 0
  }

  /**
   TTL is right exactly when the 32-bit clock does not wrap between now and the deadline
   (or, past the deadline, when the wrapped deadline still looks past).
   */
  lemma TTLExact(st: State, slot: Slot)
    requires Valid(st) && slot in st.table
    ensures var t := st.timers[st.table[slot].timer];
            RemainingReply(st, slot) == Remaining(t, st.now)
            <==> (if st.now < t.Deadline() then st.now / TWO_32 == t.Deadline() / TWO_32
                  else Wrap32(t.Deadline()) <= Wrap32(st.now))
  {
    var t := st.timers[st.table[slot].timer];
    var d := t.Deadline();
    WrapParts(st.now);
    WrapParts(d);
    if st.now < d {
      assert d - st.now < TWO_32;
      EpochsApart(st.now, d);
    }
  }

  lemma WrapParts(n: nat)
    ensures n == TWO_32 * (n / TWO_32) + Wrap32(n)
  {
  }

  lemma EpochsApart(n: nat, d: nat)
    requires n < d && d - n < TWO_32
    ensures n / TWO_32 == d / TWO_32 || n / TWO_32 + 1 == d / TWO_32
  {
  }

  /** While the clock itself fits 32 bits, the condition is that the deadline does too. */
  lemma TTLExactThisCentury(st: State, slot: Slot)
    requires Valid(st) && slot in st.table && st.now < TWO_32
    ensures var t := st.timers[st.table[slot].timer];
            RemainingReply(st, slot) == Remaining(t, st.now) <==> t.created + t.secs < TWO_32
  {
    TTLExact(st, slot);
  }

  /** The longest timeout there is reports no time left at once, and has not fired. */
  lemma LongestTimeoutReportsZero(st: State, slot: Slot)
    requires Valid(st) && 0 < st.now < TWO_32
    ensures var st' := ExpireStep(st, slot, TWO_32 - 1);
            && RemainingReply(st', slot) == 0
            && st'.timers[|st.timers|].running && !CanCheck(st', |st.timers|)
  {
    assert Wrap32(st.now) == st.now;
    assert Wrap32(st.now + (TWO_32 - 1)) == st.now - 1;
  }

  // ----- EXPIRE, then time -----

  lemma {:induction false} TicksAfter(st: State, acts: seq<Action>, n: nat)
    ensures Run(st, acts + Ticks(n)) == Run(st, acts).(now := Run(st, acts).now + n)
    decreases n
  {
    hide Run, ExpireStep, PersistStep, Update;
    if n == 0 {
      assert acts + Ticks(n) == acts;
    } else {
      TicksAfter(st, acts, n - 1);
      RunSnoc(st, acts + Ticks(n - 1), Tick);
      assert acts + Ticks(n) == (acts + Ticks(n - 1)) + [Tick];
    }
  }

  /** The timer that EXPIRE installs, some time later. */
  lemma NewTimer(st: State, slot: Slot, secs: uint32, n: nat)
    ensures var st', id := Run(st, [Expire(slot, secs)] + Ticks(n)), |st.timers|;
            && st'.store == st.store && st'.now == st.now + n
            && id < |st'.timers| && st'.timers[id] == Timer(slot, st.now, secs, true, Pending)
            && slot in st'.table && st'.table[slot].expire == Wrap32(Wrap32(st.now) + secs)
  {
    TicksAfter(st, [Expire(slot, secs)], n);
    RunOne(st, Expire(slot, secs));
    hide Run, Wrap32;
  }

  lemma FiresWhenDue(st: State, id: nat)
    requires id < |st.timers| && st.timers[id].running && st.timers[id].phase == Pending
    ensures CanFinish(Run(st, [Check(id)]), id) <==> st.now >= st.timers[id].created + st.timers[id].secs
    ensures CanFinish(Run(st, [Check(id)]), id) ==>
              Run(st, [Check(id), Finish(id)]).store == st.store - {st.timers[id].slot}
  {
    RunOne(st, Check(id));
    RunTwo(st, Check(id), Finish(id));
    hide Run;
  }

  /**
   A timeout takes the seconds it was given: after EXPIRE and `n` seconds, the callback gets to
   its deletion if and only if `n` has reached the timeout; and TTL then reports the seconds
   that are left, as long as the clock keeps within 32 bits.
   */
  lemma TimeoutExactly(st: State, slot: Slot, secs: uint32, n: nat)
    ensures var st', id := Run(st, [Expire(slot, secs)] + Ticks(n)), |st.timers|;
            && (CanFinish(Run(st', [Check(id)]), id) <==> n >= secs)
            && (n >= secs ==> Run(st', [Check(id), Finish(id)]).store == st.store - {slot})
            && (st.now + secs < TWO_32 && st.now + n < TWO_32 ==>
                  RemainingReply(st', slot) == if n < secs then secs - n else 0)
  {
    hide Run, CanFinish, Wrap32;
    var st' := Run(st, [Expire(slot, secs)] + Ticks(n));
    NewTimer(st, slot, secs, n);
    FiresWhenDue(st', |st.timers|);
    if st.now + secs < TWO_32 && st.now + n < TWO_32 {
      WrapSmall(st.now);
      WrapSmall(st.now + secs);
      WrapSmall(st.now + n);
    }
  }

  lemma WrapSmall(n: nat)
    requires n < TWO_32
    ensures Wrap32(n) == n
  {
  }

  /** Without a timeout TTL reports 0, through whatever happens until the next EXPIRE of the key. */
  lemma {:induction false} UntimedReportsZero(st: State, slot: Slot, acts: seq<Action>)
    requires slot !in st.table && forall a :: a in acts ==> !(a.Expire? && a.slot == slot)
    ensures slot !in Run(st, acts).table && RemainingReply(Run(st, acts), slot) == 0
    decreases |acts|
  {
    if acts == [] {
    } else {
      UntimedReportsZero(st, slot, acts[..|acts| - 1]);
      assert acts[|acts| - 1] in acts;
    }
  }

  /** And so it does after PERSIST. */
  lemma PersistedReportsZero(st: State, slot: Slot, acts: seq<Action>)
    requires forall a :: a in acts ==> !(a.Expire? && a.slot == slot)
    ensures RemainingReply(Run(PersistStep(st, slot), acts), slot) == 0
  {
    UntimedReportsZero(PersistStep(st, slot), slot, acts);
  }
}
