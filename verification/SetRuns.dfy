/** Whole runs of SADD and SREM on one key, for every order in which members get written. */
module SetRuns {
  import opened Bytes
  import opened Codec
  import opened Sets

  datatype Command = Add(members: seq<Item>) | Remove(members: seq<Item>)

  ghost predicate Step(v: Value, c: Command, v': Value, reply: int) {
    match c
    case Add(members) => SAddOutcome(v, members, v', reply)
    case Remove(members) => SRemOutcome(v, members, v', reply)
  }

  /** `v'` and `replies` are a possible result of running `cs` from `v`. */
  ghost predicate Run(v: Value, cs: seq<Command>, v': Value, replies: seq<int>)
    decreases |cs|
  {
    && |replies| == |cs|
    && if cs == [] then v' == v
       else exists mid :: Step(v, cs[0], mid, replies[0]) && Run(mid, cs[1..], v', replies[1..])
  }

  // ----- the reference: a set -----

  function SetStep(s: set<Item>, c: Command): (set<Item>, int) {
    match c
    case Add(members) => (s + ToSet(members), |s + ToSet(members)| - |s|)
    case Remove(members) => (s - ToSet(members), Hits(members, s))
  }

  function RunSet(s: set<Item>, cs: seq<Command>): (set<Item>, seq<int>)
    decreases |cs|
  {
    if cs == [] then (s, [])
    else
      var (s1, r) := SetStep(s, cs[0]);
      var (s2, rs) := RunSet(s1, cs[1..]);
      (s2, [r] + rs)
  }

  /** How a set is stored: no key when it is empty, else some listing of its members. */
  ghost predicate Holds(v: Value, s: set<Item>) {
    if s == {} then v == None else v.Some? && Writes(v.value, s)
  }

  function Adds(c: Command): nat {
    if c.Add? then |c.members| else 0
  }

  function TotalAdds(cs: seq<Command>): nat {
    if cs == [] then 0 else Adds(cs[0]) + TotalAdds(cs[1..])
  }

  lemma {:induction false} ToSetSize<T>(xs: seq<T>)
    ensures |ToSet(xs)| <= |xs|
  {
    if xs == [] {
      assert ToSet(xs) == {};
    } else {
      var n := |xs| - 1;
      assert xs == xs[..n] + [xs[n]];
      ToSetSnoc(xs[..n], xs[n]);
      ToSetSize(xs[..n]);
    }
  }

  /**
   What every reader says about a stored set: SMEMBERS lists each member once, the header is
   the cardinality, and SISMEMBER agrees with SMEMBERS except on the empty member, which it
   never reports. A stored set is also well-formed list data: values carry no type tag.
   */
  lemma ReadersAgree(v: Value, s: set<Item>, m: Item)
    requires Holds(v, s) && |s| < TWO_63
    ensures Members(v) == s
    ensures SMembersBytes(v).Some? && Enumerates(SMembersBytes(v).value, s)
    ensures SIsMemberBytes(v, m) <==> m != [] && m in SMembersBytes(v).value
    ensures v.Some? ==> IsListData(v.value) && Count(v.value) == |s|
  {
    if s != {} {
      var ys :| Enumerates(ys, s) && v.value == Encode(ys);
      DistinctSize(ys);
      MembersOfEncoded(ys, s);
      DecodeOfEncode(ys);
      assert m in ys <==> m in ToSet(ys);
    }
  }

  lemma AddRefines(v: Value, s: set<Item>, members: seq<Item>, v': Value, reply: int)
    requires Members(v) == s && Holds(v, s)
    requires SAddOutcome(v, members, v', reply)
    ensures Holds(v', s + ToSet(members)) && reply == |s + ToSet(members)| - |s|
    ensures |s + ToSet(members)| <= |s| + |members|
  {
    hide Encode, Members, Writes;
    ToSetSize(members);
    if members == [] {
      assert s + ToSet(members) == s;
    } else {
      assert members[0] in s + ToSet(members);
    }
  }

  lemma RemoveRefines(v: Value, s: set<Item>, members: seq<Item>, v': Value, reply: int)
    requires Members(v) == s && Holds(v, s)
    requires SRemOutcome(v, members, v', reply)
    ensures Holds(v', s - ToSet(members)) && reply == Hits(members, s)
    ensures |s - ToSet(members)| <= |s|
  {
    hide Encode, Members, Writes;
    HitsPositive(members, s);
    Shrinks(s, ToSet(members));
    hide ToSet, Hits;
    if reply == 0 {
      assert s - ToSet(members) == s;
    }
  }

  lemma Shrinks<T>(s: set<T>, t: set<T>)
    ensures |s - t| <= |s|
    ensures s !! t ==> s - t == s
  {
    assert s == (s - t) + s * t;
  }

  lemma StepRefines(v: Value, s: set<Item>, c: Command, v': Value, reply: int)
    requires Holds(v, s) && |s| < TWO_63
    requires Step(v, c, v', reply)
    ensures Holds(v', SetStep(s, c).0) && reply == SetStep(s, c).1
    ensures |SetStep(s, c).0| <= |s| + Adds(c)
  {
    hide Encode, Members, SAddOutcome, SRemOutcome, Holds;
    ReadersAgree(v, s, []);
    match c
    case Add(members) => AddRefines(v, s, members, v', reply);
    case Remove(members) => RemoveRefines(v, s, members, v', reply);
  }

  /**
   Set refinement: over any run, under any iteration order, the replies are those of the
   mathematical set, and the key is absent exactly when the set is empty and holds a listing
   of it otherwise.
   */
  lemma {:induction false} SetRefinement(v: Value, s: set<Item>, cs: seq<Command>, v': Value, replies: seq<int>)
    requires Holds(v, s) && |s| + TotalAdds(cs) < TWO_63
    requires Run(v, cs, v', replies)
    ensures Holds(v', RunSet(s, cs).0)
    ensures replies == RunSet(s, cs).1
    decreases |cs|
  {
    hide Step, Holds, SetStep;
    if cs == [] {
    } else {
      var mid :| Step(v, cs[0], mid, replies[0]) && Run(mid, cs[1..], v', replies[1..]);
      StepRefines(v, s, cs[0], mid, replies[0]);
      SetRefinement(mid, SetStep(s, cs[0]).0, cs[1..], v', replies[1..]);
      assert replies == [replies[0]] + replies[1..];
    }
  }

  /** Two runs of the same commands may leave different bytes, but never different sets. */
  lemma OrderIsInvisible(cs: seq<Command>, v1: Value, r1: seq<int>, v2: Value, r2: seq<int>, m: Item)
    requires TotalAdds(cs) < TWO_63
    ensures Run(None, cs, v1, r1) && Run(None, cs, v2, r2) ==>
              && r1 == r2 && (v1.None? <==> v2.None?)
              && (SIsMemberBytes(v1, m) <==> SIsMemberBytes(v2, m))
              && Members(v1) == Members(v2)
  {
    if Run(None, cs, v1, r1) && Run(None, cs, v2, r2) {
      hide Run;
      SetRefinement(None, {}, cs, v1, r1);
      SetRefinement(None, {}, cs, v2, r2);
      FinalSize({}, cs);
      ReadersAgree(v1, RunSet({}, cs).0, m);
      ReadersAgree(v2, RunSet({}, cs).0, m);
    }
  }

  lemma {:induction false} FinalSize(s: set<Item>, cs: seq<Command>)
    ensures |RunSet(s, cs).0| <= |s| + TotalAdds(cs)
    decreases |cs|
  {
    if cs == [] {
    } else {
      match cs[0] {
        case Add(members) => ToSetSize(members);
        case Remove(members) => assert s == (s - ToSet(members)) + (s * ToSet(members));
      }
      FinalSize(SetStep(s, cs[0]).0, cs[1..]);
    }
  }

  // ----- conservation -----

  /** No stored member is named by two argument positions. */
  ghost predicate NoStoredRepeat<T>(xs: seq<T>, s: set<T>) {
    forall i, j :: 0 <= i < j < |xs| && xs[i] == xs[j] ==> xs[i] !in s
  }

  /** SREM's reply is at least the shrinkage, and equal to it exactly without such a repeat. */
  lemma {:induction false} HitsCountShrinkage<T>(xs: seq<T>, s: set<T>)
    ensures Hits(xs, s) >= |s| - |s - ToSet(xs)|
    ensures Hits(xs, s) == |s| - |s - ToSet(xs)| <==> NoStoredRepeat(xs, s)
    decreases |xs|
  {
    if xs == [] {
      assert s - ToSet(xs) == s;
    } else {
      var n := |xs| - 1;
      var rest, x := xs[..n], xs[n];
      assert xs == rest + [x];
      HitsCountShrinkage(rest, s);
      HitsSnoc(rest, x, s);
      ToSetSnoc(rest, x);
      var left := s - ToSet(rest);
      assert s - ToSet(xs) == left - {x};
      RepeatSnoc(rest, x, s);
    }
  }

  lemma RepeatSnoc<T>(rest: seq<T>, x: T, s: set<T>)
    ensures NoStoredRepeat(rest + [x], s) <==> NoStoredRepeat(rest, s) && !(x in rest && x in s)
  {
    var xs := rest + [x];
    if NoStoredRepeat(xs, s) {
      forall i, j | 0 <= i < j < |rest| && rest[i] == rest[j] ensures rest[i] !in s {
        assert xs[i] == xs[j];
      }
      forall i | 0 <= i < |rest| && rest[i] == x ensures x !in s {
        assert xs[i] == xs[|rest|];
      }
    }
  }

  /** What the replies say entered the set, less what they say left it. */
  function Balance(cs: seq<Command>, replies: seq<int>): int
    requires |cs| == |replies|
  {
    if cs == [] then 0
    else (if cs[0].Add? then replies[0] else -replies[0]) + Balance(cs[1..], replies[1..])
  }

  ghost predicate NoRepeats(s: set<Item>, cs: seq<Command>)
    decreases |cs|
  {
    cs == []
    || (&& (cs[0].Remove? ==> NoStoredRepeat(cs[0].members, s))
        && NoRepeats(SetStep(s, cs[0]).0, cs[1..]))
  }

  lemma {:induction false} ReplyCount(s: set<Item>, cs: seq<Command>)
    ensures |RunSet(s, cs).1| == |cs|
    decreases |cs|
  {
    if cs == [] {
    } else {
      ReplyCount(SetStep(s, cs[0]).0, cs[1..]);
    }
  }

  /**
   Conservation on the set: its growth is at least the balance of the replies, and it is the
   balance exactly when no SREM names a stored member twice.
   */
  lemma {:induction false} SetConservation(s: set<Item>, cs: seq<Command>)
    ensures |RunSet(s, cs).1| == |cs|
    ensures |RunSet(s, cs).0| - |s| >= Balance(cs, RunSet(s, cs).1)
    ensures |RunSet(s, cs).0| - |s| == Balance(cs, RunSet(s, cs).1) <==> NoRepeats(s, cs)
    decreases |cs|
  {
    ReplyCount(s, cs);
    if cs == [] {
    } else {
      var (s1, r) := SetStep(s, cs[0]);
      SetConservation(s1, cs[1..]);
      assert RunSet(s, cs).1[1..] == RunSet(s1, cs[1..]).1;
      if cs[0].Remove? {
        HitsCountShrinkage(cs[0].members, s);
      }
    }
  }

  /** What a step does to the members seen in any bytes whatever, well-formed or not. */
  lemma StepOnMembers(v: Value, c: Command, v': Value, reply: int)
    requires |Members(v)| + Adds(c) < TWO_63 && Step(v, c, v', reply)
    ensures Members(v') == SetStep(Members(v), c).0 && reply == SetStep(Members(v), c).1
    ensures |Members(v')| <= |Members(v)| + Adds(c)
  {
    var s := Members(v);
    hide Members;
    match c
    case Add(members) =>
      ToSetSize(members);
      if members == [] {
        assert s + ToSet(members) == s;
      } else {
        WrittenMembers(v'.value, s + ToSet(members));
      }
    case Remove(members) =>
      HitsPositive(members, s);
      Shrinks(s, ToSet(members));
      if reply != 0 {
        if s - ToSet(members) == {} {
          assert Members(None) == {} by { NoMembers(); }
        } else {
          WrittenMembers(v'.value, s - ToSet(members));
        }
      }
  }

  lemma NoMembers()
    ensures Members(None) == {}
  {
  }

  lemma WrittenMembers(data: Bytes, s: set<Item>)
    requires Writes(data, s) && |s| < TWO_63
    ensures Members(Some(data)) == s
  {
    var ys: seq<Item> :| Enumerates(ys, s) && data == Encode(ys);
    DistinctSize(ys);
    MembersOfEncoded(ys, s);
  }

  lemma {:induction false} RunOnMembers(v: Value, cs: seq<Command>, v': Value, replies: seq<int>)
    requires |Members(v)| + TotalAdds(cs) < TWO_63 && Run(v, cs, v', replies)
    ensures Members(v') == RunSet(Members(v), cs).0 && replies == RunSet(Members(v), cs).1
    decreases |cs|
  {
    hide Step, SetStep, Members;
    if cs == [] {
    } else {
      var mid :| Step(v, cs[0], mid, replies[0]) && Run(mid, cs[1..], v', replies[1..]);
      StepOnMembers(v, cs[0], mid, replies[0]);
      RunOnMembers(mid, cs[1..], v', replies[1..]);
      assert replies == [replies[0]] + replies[1..];
    }
  }

  /**
   Conservation over whole runs from any bytes, under any iteration order: the number of
   stored members grows by at least the balance of the replies, and by exactly that if and
   only if no SREM names a stored member twice.
   */
  lemma Conservation(v: Value, cs: seq<Command>, v': Value, replies: seq<int>)
    requires |Members(v)| + TotalAdds(cs) < TWO_63 && Run(v, cs, v', replies)
    ensures |Members(v')| - |Members(v)| >= Balance(cs, replies)
    ensures |Members(v')| - |Members(v)| == Balance(cs, replies) <==> NoRepeats(Members(v), cs)
  {
    RunOnMembers(v, cs, v', replies);
    SetConservation(Members(v), cs);
  }

  // ----- who is a member in the end, and what SREM counts -----

  /** Whether the last command of the run that names `x` is an SADD; none if no command does. */
  function LastNaming(cs: seq<Command>, x: Item): Option<bool> {
    if cs == [] then None
    else
      var later := LastNaming(cs[1..], x);
      if later.Some? then later else if x in cs[0].members then Some(cs[0].Add?) else None
  }

  lemma {:induction false} InSetByLastCommand(s: set<Item>, cs: seq<Command>, x: Item)
    ensures x in RunSet(s, cs).0 <==>
              LastNaming(cs, x) == Some(true) || (LastNaming(cs, x) == None && x in s)
    decreases |cs|
  {
    if cs == [] {
    } else {
      InSetByLastCommand(SetStep(s, cs[0]).0, cs[1..], x);
    }
  }

  /**
   After any run from any bytes, exactly those are members that the last command naming them
   added, and those that were members before and that no command named.
   */
  lemma MemberByLastCommand(v: Value, cs: seq<Command>, v': Value, replies: seq<int>, x: Item)
    requires |Members(v)| + TotalAdds(cs) < TWO_63 && Run(v, cs, v', replies)
    ensures x in Members(v') <==>
              LastNaming(cs, x) == Some(true) || (LastNaming(cs, x) == None && x in Members(v))
  {
    RunOnMembers(v, cs, v', replies);
    InSetByLastCommand(Members(v), cs, x);
  }

  function Positions<T(==)>(xs: seq<T>, s: set<T>): set<nat> {
    set i: nat | i < |xs| && xs[i] in s
  }

  lemma PositionsSnoc<T>(xs: seq<T>, x: T, s: set<T>)
    ensures Positions(xs + [x], s) == Positions(xs, s) + (if x in s then {|xs|} else {})
    ensures |Positions(xs + [x], s)| == |Positions(xs, s)| + (if x in s then 1 else 0)
  {
    assert |xs| !in Positions(xs, s);
    assert forall i: nat :: i < |xs| ==> (xs + [x])[i] == xs[i];
  }

  /** SREM answers how many argument positions name a stored member. */
  lemma {:induction false} HitsArePositions<T>(xs: seq<T>, s: set<T>)
    ensures Hits(xs, s) == |Positions(xs, s)|
    decreases |xs|
  {
    if xs == [] {
      assert Positions(xs, s) == {};
    } else {
      var n := |xs| - 1;
      assert xs == xs[..n] + [xs[n]];
      HitsArePositions(xs[..n], s);
      HitsSnoc(xs[..n], xs[n], s);
      PositionsSnoc(xs[..n], xs[n], s);
    }
  }

  /** A repeated argument makes SREM over-report: one member leaves, the reply is 2. */
  lemma RepeatedArgumentOverReports(x: Item)
    ensures SRemOutcome(Some(Encode([x])), [x, x], None, 2)
  {
    DecodeOfEncode([x]);
    assert Members(Some(Encode([x]))) == {x};
    assert ToSet([x, x]) == {x};
    assert [x, x][1..] == [x] && [x][1..] == [];
    assert Hits([x], {x}) == 1 + Hits([], {x});
    assert Hits([x, x], {x}) == 2;
  }
}
