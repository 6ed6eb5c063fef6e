/**
 Commands on a key and the timers beside it. A key used as a list and as a set refines one
 sequence even while deadlines are set and removed, the clock ticks, callbacks run in two
 halves, and other keys are written: the sequence becomes empty exactly when a timer of this
 key deletes, and whatever comes next starts from the empty sequence.
 */
module TimedRuns {
  import opened Bytes
  import opened Codec
  import Expiry
  import ListRuns
  import MixedRuns

  datatype Event =
    | Call(command: MixedRuns.Command)  // a command on the key
    | Other(action: Expiry.Action)      // anything else

  /** Commands on the key itself are calls, not writes. */
  predicate Proper(e: Event, slot: Expiry.Slot) {
    e.Other? && e.action.Write? ==> e.action.slot != slot
  }

  type Reply = Option<MixedRuns.Reply>

  ghost predicate Step(st: Expiry.State, slot: Expiry.Slot, e: Event, st': Expiry.State, r: Reply) {
    match e
    case Call(c) =>
      && r.Some?
      && MixedRuns.Step(Expiry.At(st.store, slot), c, Expiry.At(st'.store, slot), r.value)
      && st' == Expiry.Step(st, Expiry.Write(slot, Expiry.At(st'.store, slot)))
    case Other(a) => st' == Expiry.Step(st, a) && r == None
  }

  ghost predicate Run(st: Expiry.State, slot: Expiry.Slot, es: seq<Event>, st': Expiry.State, rs: seq<Reply>)
    decreases |es|
  {
    && |rs| == |es|
    && if es == [] then st' == st
       else
         var n := |es| - 1;
         exists mid :: Run(st, slot, es[..n], mid, rs[..n]) && Step(mid, slot, es[n], st', rs[n])
  }

  // ----- the reference: a sequence, and a machine that does not hold the key -----

  /** A timer of the key deletes. Only the timers decide, never what is stored. */
  predicate Fires(rest: Expiry.State, a: Expiry.Action, slot: Expiry.Slot) {
    a.Finish? && Expiry.CanFinish(rest, a.id) && rest.timers[a.id].slot == slot
  }

  datatype Split = Split(rest: Expiry.State, xs: seq<Item>)

  ghost predicate SplitStep(s: Split, slot: Expiry.Slot, e: Event, s': Split, r: Reply) {
    match e
    case Call(c) => s'.rest == s.rest && r.Some? && MixedRuns.SeqStep(s.xs, c, s'.xs, r.value)
    case Other(a) =>
      && s'.rest == Expiry.Step(s.rest, a) && r == None
      && s'.xs == if Fires(s.rest, a, slot) then [] else s.xs
  }

  ghost predicate SplitRun(s: Split, slot: Expiry.Slot, es: seq<Event>, s': Split, rs: seq<Reply>)
    decreases |es|
  {
    && |rs| == |es|
    && if es == [] then s' == s
       else
         var n := |es| - 1;
         exists mid :: SplitRun(s, slot, es[..n], mid, rs[..n]) && SplitStep(mid, slot, es[n], s', rs[n])
  }

  /** The machine with the sequence stored under the key. */
  function Join(s: Split, slot: Expiry.Slot): Expiry.State {
    s.rest.(store := Expiry.Update(s.rest.store, slot, ListRuns.Stored(s.xs)))
  }

  function Adds(e: Event): nat {
    if e.Call? then MixedRuns.Adds(e.command) else 0
  }

  function TotalAdds(es: seq<Event>): nat {
    if es == [] then 0 else TotalAdds(es[..|es| - 1]) + Adds(es[|es| - 1])
  }

  lemma JoinHolds(s: Split, slot: Expiry.Slot)
    ensures Expiry.At(Join(s, slot).store, slot) == ListRuns.Stored(s.xs)
  {
    hide ListRuns.Stored;
  }

  lemma Rewritten(s: Split, slot: Expiry.Slot, xs: seq<Item>)
    ensures Expiry.Step(Join(s, slot), Expiry.Write(slot, ListRuns.Stored(xs))) == Join(Split(s.rest, xs), slot)
  {
    hide ListRuns.Stored;
  }

  /** Nothing but writes and deletions depends on the store or changes it. */
  lemma StoreUnread(st: Expiry.State, store: Expiry.Store, a: Expiry.Action)
    requires !a.Write? && !a.Finish?
    ensures Expiry.Step(st.(store := store), a) == Expiry.Step(st, a).(store := store)
    ensures Expiry.Step(st, a).store == st.store
  {
  }

  lemma OtherStep(s: Split, slot: Expiry.Slot, a: Expiry.Action)
    requires slot !in s.rest.store && Proper(Other(a), slot)
    ensures slot !in Expiry.Step(s.rest, a).store
    ensures Expiry.Step(Join(s, slot), a)
         == Join(Split(Expiry.Step(s.rest, a), if Fires(s.rest, a, slot) then [] else s.xs), slot)
  {
    assert ListRuns.Stored([]) == None;
    hide ListRuns.Stored, Expiry.Wrap32;
    if a.Write? || a.Finish? {
      hide Expiry.ExpireStep, Expiry.PersistStep;
    } else {
      StoreUnread(s.rest, Join(s, slot).store, a);
      hide Expiry.Step;
    }
  }

  lemma StepDown(s: Split, slot: Expiry.Slot, e: Event, st': Expiry.State, r: Reply) returns (s': Split)
    requires slot !in s.rest.store && Proper(e, slot) && |s.xs| + Adds(e) < TWO_63
    requires Step(Join(s, slot), slot, e, st', r)
    ensures st' == Join(s', slot) && SplitStep(s, slot, e, s', r)
    ensures slot !in s'.rest.store && |s'.xs| <= |s.xs| + Adds(e)
  {
    match e
    case Call(c) =>
      JoinHolds(s, slot);
      hide MixedRuns.Step, MixedRuns.SeqStep, ListRuns.Stored, MixedRuns.Adds;
      var xs' := MixedRuns.StepDown(s.xs, c, Expiry.At(st'.store, slot), r.value);
      Rewritten(s, slot, xs');
      s' := Split(s.rest, xs');
    case Other(a) =>
      OtherStep(s, slot, a);
      s' := Split(Expiry.Step(s.rest, a), if Fires(s.rest, a, slot) then [] else s.xs);
  }

  lemma StepUp(s: Split, slot: Expiry.Slot, e: Event, s': Split, r: Reply)
    requires slot !in s.rest.store && Proper(e, slot) && |s.xs| + Adds(e) < TWO_63
    requires SplitStep(s, slot, e, s', r)
    ensures Step(Join(s, slot), slot, e, Join(s', slot), r)
    ensures slot !in s'.rest.store && |s'.xs| <= |s.xs| + Adds(e)
  {
    match e
    case Call(c) =>
      JoinHolds(s, slot);
      JoinHolds(s', slot);
      Rewritten(s, slot, s'.xs);
      hide MixedRuns.Step, MixedRuns.SeqStep, ListRuns.Stored, MixedRuns.Adds, Join;
      MixedRuns.StepUp(s.xs, c, s'.xs, r.value);
    case Other(a) =>
      OtherStep(s, slot, a);
  }

  lemma {:induction false} RunDown(s: Split, slot: Expiry.Slot, es: seq<Event>, st': Expiry.State, rs: seq<Reply>)
      returns (s': Split)
    requires slot !in s.rest.store && (forall e :: e in es ==> Proper(e, slot))
    requires |s.xs| + TotalAdds(es) < TWO_63 && Run(Join(s, slot), slot, es, st', rs)
    ensures st' == Join(s', slot) && SplitRun(s, slot, es, s', rs)
    ensures slot !in s'.rest.store && |s'.xs| <= |s.xs| + TotalAdds(es)
    decreases |es|
  {
    hide Step, SplitStep, Join, Adds, Proper;
    if es == [] {
      s' := s;
    } else {
      var n := |es| - 1;
      var mid :| Run(Join(s, slot), slot, es[..n], mid, rs[..n]) && Step(mid, slot, es[n], st', rs[n]);
      var s1 := RunDown(s, slot, es[..n], mid, rs[..n]);
      s' := StepDown(s1, slot, es[n], st', rs[n]);
    }
  }

  lemma {:induction false} RunUp(s: Split, slot: Expiry.Slot, es: seq<Event>, s': Split, rs: seq<Reply>)
    requires slot !in s.rest.store && (forall e :: e in es ==> Proper(e, slot))
    requires |s.xs| + TotalAdds(es) < TWO_63 && SplitRun(s, slot, es, s', rs)
    ensures Run(Join(s, slot), slot, es, Join(s', slot), rs)
    ensures slot !in s'.rest.store && |s'.xs| <= |s.xs| + TotalAdds(es)
    decreases |es|
  {
    hide Step, SplitStep, Join, Adds, Proper;
    if es == [] {
    } else {
      var n := |es| - 1;
      var mid :| SplitRun(s, slot, es[..n], mid, rs[..n]) && SplitStep(mid, slot, es[n], s', rs[n]);
      RunUp(s, slot, es[..n], mid, rs[..n]);
      StepUp(mid, slot, es[n], s', rs[n]);
    }
  }

  /**
   Timed refinement: over any interleaving of list and set commands on the key with deadlines,
   ticks, both halves of callbacks and commands on other keys, the possible final states and
   replies are exactly those of a sequence that is emptied at each deletion by a timer of the
   key, beside a machine in which the key does not occur.
   */
  lemma TimedRefinement(s: Split, slot: Expiry.Slot, es: seq<Event>, st': Expiry.State, rs: seq<Reply>)
    requires slot !in s.rest.store && (forall e :: e in es ==> Proper(e, slot))
    requires |s.xs| + TotalAdds(es) < TWO_63
    ensures Run(Join(s, slot), slot, es, st', rs)
       <==> exists s' :: st' == Join(s', slot) && SplitRun(s, slot, es, s', rs)
  {
    hide Run, SplitRun, Join, Proper;
    if Run(Join(s, slot), slot, es, st', rs) {
      var s' := RunDown(s, slot, es, st', rs);
    }
    forall s' | st' == Join(s', slot) && SplitRun(s, slot, es, s', rs)
      ensures Run(Join(s, slot), slot, es, st', rs)
    {
      RunUp(s, slot, es, s', rs);
    }
  }

  // ----- why a sequence was emptied -----

  /** The action an event is to the timers. */
  predicate ActsAs(e: Event, a: Expiry.Action, slot: Expiry.Slot) {
    if e.Call? then a.Write? && a.slot == slot else a == e.action
  }

  lemma LastActsAs(st: Expiry.State, slot: Expiry.Slot, e: Event, st': Expiry.State, r: Reply, a: Expiry.Action)
    requires Step(st, slot, e, st', r)
    requires a == if e.Call? then Expiry.Write(slot, Expiry.At(st'.store, slot)) else e.action
    ensures ActsAs(e, a, slot) && st' == Expiry.Step(st, a)
  {
    hide MixedRuns.Step, Expiry.Step, Expiry.At;
  }

  predicate AllActAs(es: seq<Event>, acts: seq<Expiry.Action>, slot: Expiry.Slot) {
    |acts| == |es| && forall k :: 0 <= k < |es| ==> ActsAs(es[k], acts[k], slot)
  }

  lemma ActsAsSnoc(es: seq<Event>, acts: seq<Expiry.Action>, last: Expiry.Action, slot: Expiry.Slot)
    requires es != [] && AllActAs(es[..|es| - 1], acts, slot) && ActsAs(es[|es| - 1], last, slot)
    ensures AllActAs(es, acts + [last], slot)
  {
    hide ActsAs;
    forall k | 0 <= k < |es| ensures ActsAs(es[k], (acts + [last])[k], slot) {
      assert k < |es| - 1 ==> es[..|es| - 1][k] == es[k];
    }
  }

  /** To the timers, a timed run is a run of the expiry machine. */
  lemma {:induction false} IsExpiryRun(st: Expiry.State, slot: Expiry.Slot, es: seq<Event>,
                                       st': Expiry.State, rs: seq<Reply>) returns (acts: seq<Expiry.Action>)
    requires Run(st, slot, es, st', rs)
    ensures AllActAs(es, acts, slot) && st' == Expiry.Run(st, acts)
    decreases |es|
  {
    if es == [] {
      acts := [];
      assert Expiry.Run(st, []) == st;
    } else {
      hide Step, Expiry.Run, Expiry.Step, Expiry.At, ActsAs, AllActAs;
      var n := |es| - 1;
      var mid :| Run(st, slot, es[..n], mid, rs[..n]) && Step(mid, slot, es[n], st', rs[n]);
      var before := IsExpiryRun(st, slot, es[..n], mid, rs[..n]);
      var last := if es[n].Call? then Expiry.Write(slot, Expiry.At(st'.store, slot)) else es[n].action;
      acts := before + [last];
      Expiry.RunSnoc(st, before, last);
      LastActsAs(mid, slot, es[n], st', rs[n], last);
      ActsAsSnoc(es, before, last, slot);
    }
  }

  /** The seconds that pass during a run. */
  function Elapsed(es: seq<Event>): nat {
    if es == [] then 0 else Elapsed(es[..|es| - 1]) + if es[|es| - 1] == Other(Expiry.Tick) then 1 else 0
  }

  lemma ClockStep(st: Expiry.State, a: Expiry.Action)
    ensures Expiry.Step(st, a).now == st.now + if a.Tick? then 1 else 0
  {
  }

  lemma {:induction false} ClockElapsed(st: Expiry.State, slot: Expiry.Slot, es: seq<Event>, acts: seq<Expiry.Action>)
    requires AllActAs(es, acts, slot)
    ensures Expiry.Run(st, acts).now == st.now + Elapsed(es)
    decreases |es|
  {
    if es == [] {
    } else {
      var n := |es| - 1;
      assert ActsAs(es[n], acts[n], slot);
      ClockElapsed(st, slot, es[..n], acts[..n]);
      ClockStep(Expiry.Run(st, acts[..n]), acts[n]);
      hide Expiry.Step;
    }
  }

  /**
   When a timer is about to empty the sequence, the run holds the EXPIRE of this very key that
   registered it and its check, at least the requested number of seconds later and with no
   PERSIST or EXPIRE of the key in between, whatever commands were called on the key meanwhile.
   */
  lemma EmptyingHasCause(st: Expiry.State, slot: Expiry.Slot, es: seq<Event>, st': Expiry.State, rs: seq<Reply>,
                         a: Expiry.Action) returns (i: nat, j: nat)
    requires Expiry.Valid(st) && |st.timers| == 0 && Run(st, slot, es, st', rs) && Fires(st', a, slot)
    ensures i < j < |es|
    ensures es[i].Other? && es[i].action.Expire? && es[i].action.slot == slot
    ensures es[j] == Other(Expiry.Check(a.id))
    ensures Elapsed(es[..j]) >= Elapsed(es[..i]) + es[i].action.secs
    ensures forall k :: i < k < j && es[k].Other? ==> !Expiry.Supersedes(es[k].action, slot)
  {
    hide Run, Expiry.Valid, Expiry.Run, Elapsed;
    var acts := IsExpiryRun(st, slot, es, st', rs);
    i, j := Expiry.Provenance(st, acts, a.id);
    ClockElapsed(st, slot, es[..i], acts[..i]);
    ClockElapsed(st, slot, es[..j], acts[..j]);
    assert ActsAs(es[i], acts[i], slot) && ActsAs(es[j], acts[j], slot);
    forall k | i < k < j && es[k].Other? ensures !Expiry.Supersedes(es[k].action, slot) {
      assert ActsAs(es[k], acts[k], slot);
    }
  }
}
