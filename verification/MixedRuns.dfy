/**
 List and set commands on the same key. Values carry no type tag and both kinds share one
 format, so a key may be used as a list and as a set in turn. The bytes still refine a
 sequence; the set commands see its elements as a set and may reorder and deduplicate it.
 */
module MixedRuns {
  import opened Bytes
  import opened Codec
  import opened Sets
  import ListRuns
  import SetRuns

  datatype Command = OnList(list: ListRuns.Command) | OnSet(members: SetRuns.Command)

  datatype Reply = FromList(reply: ListRuns.Reply) | FromSet(count: int)

  ghost predicate Step(v: Value, c: Command, v': Value, r: Reply) {
    match c
    case OnList(list) => (v', r) == (ListRuns.ByteStep(v, list).0, FromList(ListRuns.ByteStep(v, list).1))
    case OnSet(members) => r.FromSet? && SetRuns.Step(v, members, v', r.count)
  }

  ghost predicate Run(v: Value, cs: seq<Command>, v': Value, replies: seq<Reply>)
    decreases |cs|
  {
    && |replies| == |cs|
    && if cs == [] then v' == v
       else exists mid :: Step(v, cs[0], mid, replies[0]) && Run(mid, cs[1..], v', replies[1..])
  }

  // ----- the reference: a sequence, which set commands see as the set of its elements -----

  ghost predicate SeqStep(xs: seq<Item>, c: Command, xs': seq<Item>, r: Reply) {
    match c
    case OnList(list) => (xs', r) == (ListRuns.ListStep(xs, list).0, FromList(ListRuns.ListStep(xs, list).1))
    case OnSet(members) =>
      && r == FromSet(SetRuns.SetStep(ToSet(xs), members).1)
      && if Unaffected(xs, members) then xs' == xs
         else Enumerates(xs', SetRuns.SetStep(ToSet(xs), members).0)
  }

  /** SADD without members and SREM without a hit write nothing; every other one rewrites. */
  predicate Unaffected(xs: seq<Item>, c: SetRuns.Command) {
    match c
    case Add(members) => members == []
    case Remove(members) => Hits(members, ToSet(xs)) == 0
  }

  ghost predicate SeqRun(xs: seq<Item>, cs: seq<Command>, xs': seq<Item>, replies: seq<Reply>)
    decreases |cs|
  {
    && |replies| == |cs|
    && if cs == [] then xs' == xs
       else exists mid :: SeqStep(xs, cs[0], mid, replies[0]) && SeqRun(mid, cs[1..], xs', replies[1..])
  }

  function Adds(c: Command): nat {
    if c.OnList? then ListRuns.Adds(c.list) else SetRuns.Adds(c.members)
  }

  function TotalAdds(cs: seq<Command>): nat {
    if cs == [] then 0 else Adds(cs[0]) + TotalAdds(cs[1..])
  }

  /** Read as a set, a stored list has the elements of the list. */
  lemma ListReadAsSet(xs: seq<Item>, m: Item)
    requires Fits(xs)
    ensures Members(ListRuns.Stored(xs)) == ToSet(xs)
    ensures SMembersBytes(ListRuns.Stored(xs)) == Some(xs)
    ensures SIsMemberBytes(ListRuns.Stored(xs), m) <==> m != [] && m in xs
  {
    if xs == [] {
    } else {
      DecodeOfEncode(xs);
      assert xs[..|xs|] == xs;
    }
  }

  lemma StoredListing(v: Value, s: set<Item>) returns (ys: seq<Item>)
    requires v.Some? && Writes(v.value, s) && s != {}
    ensures Enumerates(ys, s) && v == ListRuns.Stored(ys) && |ys| == |s|
  {
    ys :| Enumerates(ys, s) && v.value == Encode(ys);
    DistinctSize(ys);
  }

  lemma StoredWrites(ys: seq<Item>, s: set<Item>)
    requires Enumerates(ys, s) && s != {}
    ensures ListRuns.Stored(ys).Some? && Writes(ListRuns.Stored(ys).value, s)
  {
    DistinctSize(ys);
  }

  lemma SetSizes(xs: seq<Item>, c: SetRuns.Command)
    ensures |SetRuns.SetStep(ToSet(xs), c).0| <= |xs| + SetRuns.Adds(c)
    ensures c.Add? && c.members != [] ==> SetRuns.SetStep(ToSet(xs), c).0 != {}
  {
    SetRuns.ToSetSize(xs);
    match c
    case Add(members) =>
      SetRuns.ToSetSize(members);
      if members != [] {
        assert members[0] in ToSet(members);
      }
    case Remove(members) => SetRuns.Shrinks(ToSet(xs), ToSet(members));
  }

  /** A set command on a stored list leaves a stored list that it allows. */
  lemma SetStepDown(xs: seq<Item>, c: SetRuns.Command, v': Value, r: int) returns (xs': seq<Item>)
    requires |xs| + SetRuns.Adds(c) < TWO_63
    requires SetRuns.Step(ListRuns.Stored(xs), c, v', r)
    ensures v' == ListRuns.Stored(xs') && SeqStep(xs, OnSet(c), xs', FromSet(r))
    ensures |xs'| <= |xs| + SetRuns.Adds(c)
  {
    ListReadAsSet(xs, []);
    SetSizes(xs, c);
    var after := SetRuns.SetStep(ToSet(xs), c).0;
    SetStepCases(ListRuns.Stored(xs), xs, c, v', r);
    hide Members, ToSet, ListRuns.Stored, Writes, Hits, Enumerates, SetRuns.Step, SetRuns.SetStep, Unaffected;
    if Unaffected(xs, c) {
      xs' := xs;
    } else if after == {} {
      xs' := [];
      StoredEmpty();
    } else {
      xs' := StoredListing(v', after);
    }
  }

  /** What a set command does to a value whose members are those of `xs`. */
  lemma SetStepCases(v: Value, xs: seq<Item>, c: SetRuns.Command, v': Value, r: int)
    requires Members(v) == ToSet(xs) && SetRuns.Step(v, c, v', r)
    requires c.Add? && c.members != [] ==> SetRuns.SetStep(ToSet(xs), c).0 != {}
    ensures r == SetRuns.SetStep(ToSet(xs), c).1
    ensures var after := SetRuns.SetStep(ToSet(xs), c).0;
            if Unaffected(xs, c) then v' == v
            else if after == {} then v' == None
            else v'.Some? && Writes(v'.value, after)
  {
    NothingAdded(xs);
    hide Members, ToSet, Writes, Hits;
  }

  lemma StoredEmpty()
    ensures ListRuns.Stored([]) == None && Enumerates<Item>([], {})
  {
    assert ToSet<Item>([]) == {};
  }

  /** And every list it allows is possible. */
  lemma SetStepUp(xs: seq<Item>, c: SetRuns.Command, xs': seq<Item>, r: int)
    requires |xs| + SetRuns.Adds(c) < TWO_63
    requires SeqStep(xs, OnSet(c), xs', FromSet(r))
    ensures SetRuns.Step(ListRuns.Stored(xs), c, ListRuns.Stored(xs'), r)
    ensures |xs'| <= |xs| + SetRuns.Adds(c)
  {
    ListReadAsSet(xs, []);
    SetSizes(xs, c);
    var after := SetRuns.SetStep(ToSet(xs), c).0;
    if !Unaffected(xs, c) {
      EnumerationSize(xs', after);
      if after != {} {
        StoredWrites(xs', after);
      }
    } else if c.Add? {
      NothingAdded(xs);
    }
    hide Members, ToSet, ListRuns.Stored, Writes, Hits, Enumerates;
  }

  lemma NothingAdded(xs: seq<Item>)
    ensures ToSet(xs) + ToSet([]) == ToSet(xs)
  {
  }

  lemma EnumerationSize(ys: seq<Item>, s: set<Item>)
    requires Enumerates(ys, s)
    ensures |ys| == |s| && (s == {} ==> ListRuns.Stored(ys) == None)
  {
    DistinctSize(ys);
  }

  lemma StepDown(xs: seq<Item>, c: Command, v': Value, r: Reply) returns (xs': seq<Item>)
    requires |xs| + Adds(c) < TWO_63 && Step(ListRuns.Stored(xs), c, v', r)
    ensures v' == ListRuns.Stored(xs') && SeqStep(xs, c, xs', r) && |xs'| <= |xs| + Adds(c)
  {
    hide ListRuns.ByteStep, ListRuns.ListStep, ListRuns.Stored, SetRuns.Step;
    match c
    case OnList(list) =>
      ListRuns.StepRefines(xs, list);
      xs' := ListRuns.ListStep(xs, list).0;
    case OnSet(members) =>
      xs' := SetStepDown(xs, members, v', r.count);
  }

  lemma StepUp(xs: seq<Item>, c: Command, xs': seq<Item>, r: Reply)
    requires |xs| + Adds(c) < TWO_63 && SeqStep(xs, c, xs', r)
    ensures Step(ListRuns.Stored(xs), c, ListRuns.Stored(xs'), r) && |xs'| <= |xs| + Adds(c)
  {
    hide ListRuns.ByteStep, ListRuns.ListStep, ListRuns.Stored, SetRuns.Step;
    match c
    case OnList(list) => ListRuns.StepRefines(xs, list);
    case OnSet(members) => SetStepUp(xs, members, xs', r.count);
  }

  lemma {:induction false} RunDown(xs: seq<Item>, cs: seq<Command>, v': Value, replies: seq<Reply>)
      returns (xs': seq<Item>)
    requires |xs| + TotalAdds(cs) < TWO_63 && Run(ListRuns.Stored(xs), cs, v', replies)
    ensures v' == ListRuns.Stored(xs') && SeqRun(xs, cs, xs', replies)
    decreases |cs|
  {
    hide Step, SeqStep, Adds, ListRuns.Stored;
    if cs == [] {
      xs' := xs;
    } else {
      var mid :| Step(ListRuns.Stored(xs), cs[0], mid, replies[0]) && Run(mid, cs[1..], v', replies[1..]);
      var next := StepDown(xs, cs[0], mid, replies[0]);
      xs' := RunDown(next, cs[1..], v', replies[1..]);
    }
  }

  lemma {:induction false} RunUp(xs: seq<Item>, cs: seq<Command>, xs': seq<Item>, replies: seq<Reply>)
    requires |xs| + TotalAdds(cs) < TWO_63 && SeqRun(xs, cs, xs', replies)
    ensures Run(ListRuns.Stored(xs), cs, ListRuns.Stored(xs'), replies)
    decreases |cs|
  {
    hide Step, SeqStep, Adds, ListRuns.Stored;
    if cs == [] {
    } else {
      var next :| SeqStep(xs, cs[0], next, replies[0]) && SeqRun(next, cs[1..], xs', replies[1..]);
      StepUp(xs, cs[0], next, replies[0]);
      RunUp(next, cs[1..], xs', replies[1..]);
    }
  }

  /**
   Mixed refinement: the possible results of a run of list and set commands on a stored
   sequence are exactly the stored results of the same run on the sequence, with the same
   replies, whatever order the set commands write in.
   */
  lemma MixedRefinement(xs: seq<Item>, cs: seq<Command>, v': Value, replies: seq<Reply>)
    requires |xs| + TotalAdds(cs) < TWO_63
    ensures Run(ListRuns.Stored(xs), cs, v', replies)
       <==> exists xs' :: v' == ListRuns.Stored(xs') && SeqRun(xs, cs, xs', replies)
  {
    hide Run, SeqRun, ListRuns.Stored;
    if Run(ListRuns.Stored(xs), cs, v', replies) {
      var xs' := RunDown(xs, cs, v', replies);
    }
    forall xs' | v' == ListRuns.Stored(xs') && SeqRun(xs, cs, xs', replies)
      ensures Run(ListRuns.Stored(xs), cs, v', replies)
    {
      RunUp(xs, cs, xs', replies);
    }
  }

  // ----- what sharing the key costs -----

  lemma DistinctSnocExactly<T>(rest: seq<T>, last: T)
    ensures Distinct(rest + [last]) <==> Distinct(rest) && last !in ToSet(rest)
  {
    if Distinct(rest + [last]) {
      LastIsNew(rest + [last]);
      assert (rest + [last])[..|rest|] == rest;
    }
    if Distinct(rest) && last !in ToSet(rest) {
      DistinctSnoc(rest, last);
    }
  }

  lemma {:induction false} DistinctExactly<T>(xs: seq<T>)
    ensures |ToSet(xs)| <= |xs|
    ensures |ToSet(xs)| == |xs| <==> Distinct(xs)
  {
    if xs == [] {
      assert ToSet(xs) == {};
    } else {
      var n := |xs| - 1;
      var rest, last := xs[..n], xs[n];
      assert xs == rest + [last];
      DistinctExactly(rest);
      ToSetSnoc(rest, last);
      DistinctSnocExactly(rest, last);
    }
  }

  /**
   The reply of SADD to a list is the growth of the list exactly when the list had no
   repeated element; otherwise the list comes out shorter than the reply says.
   */
  lemma AddDeduplicates(xs: seq<Item>, members: seq<Item>, xs': seq<Item>, r: int)
    requires members != [] && SeqStep(xs, OnSet(SetRuns.Add(members)), xs', FromSet(r))
    ensures |xs'| - |xs| <= r
    ensures |xs'| - |xs| == r <==> Distinct(xs)
  {
    DistinctExactly(xs);
    DistinctSize(xs');
  }

  /** Adding an element that a list holds twice answers 0 and halves the list. */
  lemma AddCanShorten(x: Item, v': Value, r: Reply)
    requires Step(ListRuns.Stored([x, x]), OnSet(SetRuns.Add([x])), v', r)
    ensures v' == ListRuns.Stored([x]) && r == FromSet(0)
  {
    hide Step, ListRuns.Stored;
    var xs' := StepDown([x, x], OnSet(SetRuns.Add([x])), v', r);
    hide Enumerates;
    PairAsSet(x);
    SingletonListing(x, xs');
  }

  lemma PairAsSet(x: Item)
    ensures ToSet([x, x]) + ToSet([x]) == {x} && |{x}| == 1
    ensures ToSet([x, x]) == {x}
  {
    assert ToSet([x]) == {x};
  }

  lemma SingletonListing(x: Item, xs: seq<Item>)
    ensures Enumerates(xs, {x}) ==> xs == [x]
  {
    if Enumerates(xs, {x}) {
      DistinctSize(xs);
      assert |{x}| == 1;
      assert xs[0] in ToSet(xs);
    }
  }

  /** One more command at the end of a run. */
  lemma {:induction false} RunSnoc(v: Value, cs: seq<Command>, mid: Value, replies: seq<Reply>,
                                   c: Command, v': Value, reply: Reply)
    requires Run(v, cs, mid, replies) && Step(mid, c, v', reply)
    ensures Run(v, cs + [c], v', replies + [reply])
    decreases |cs|
  {
    hide Step;
    if cs == [] {
      assert Run(v', [], v', []);
      assert (cs + [c])[1..] == [] && (replies + [reply])[1..] == [];
    } else {
      var next :| Step(v, cs[0], next, replies[0]) && Run(next, cs[1..], mid, replies[1..]);
      RunSnoc(next, cs[1..], mid, replies[1..], c, v', reply);
      assert (cs + [c])[1..] == cs[1..] + [c];
      assert (replies + [reply])[1..] == replies[1..] + [reply];
    }
  }
}
