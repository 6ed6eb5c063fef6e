/** Whole histories of ZADD on one key, and what ZRANGE and ZCOUNT say about the result. */
module SortedSetRuns {
  import opened Bytes
  import opened Codec
  import opened Scores
  import opened SortedSets
  import Lists
  import ListRuns
  import ScoreOrder
  import Sets

  datatype Addition = Addition(score: uint64, member: Item)

  /** `v'` and `replies` are a possible result of running the additions from `v`. */
  ghost predicate Run(v: Value, adds: seq<Addition>, v': Value, replies: seq<int>)
    decreases |adds|
  {
    && |replies| == |adds|
    && if adds == [] then v' == v
       else exists mid ::
              ZAddOutcome(v, adds[0].score, adds[0].member, mid, replies[0]) && Run(mid, adds[1..], v', replies[1..])
  }

  // ----- the reference: a map from members to scores -----

  function MapStep(m: Scored, a: Addition): (Scored, int) {
    if a.member == [] then (m, 0) else (m[a.member := a.score], if a.member in m then 0 else 1)
  }

  function RunMap(m: Scored, adds: seq<Addition>): (Scored, seq<int>)
    decreases |adds|
  {
    if adds == [] then (m, [])
    else
      var (m1, r) := MapStep(m, adds[0]);
      var (m2, rs) := RunMap(m1, adds[1..]);
      (m2, [r] + rs)
  }

  /** How a map is stored: no key when it is empty, else a representation of it. */
  ghost predicate Holds(v: Value, m: Scored) {
    if m == map[] then v == None else v.Some? && Writes(v.value, m)
  }

  /** What is stored is read back. */
  lemma DecodesTo(v: Value, m: Scored) returns (es: seq<Entry>)
    requires Holds(v, m) && |m| < TWO_63
    ensures Decoded(v) == m
    ensures Represents(es, m) && |es| == |m|
    ensures NaNFreeMap(m) ==> Sorted(es)
    ensures v.Some? ==> |v.value| >= HEADER_SIZE && Count(v.value) == |m| && Entries(v.value, HEADER_SIZE) == es
  {
    if m == map[] {
      es := [];
    } else {
      es :| Represents(es, m) && v.value == EncodeZ(es);
      MapOfDistinct(es, m);
      hide Represents, EncodeZ, MapOf, DistinctMembers;
      EncodedDecodes(es);
    }
  }

  lemma EncodedDecodes(es: seq<Entry>)
    requires Fits(es)
    ensures |EncodeZ(es)| >= HEADER_SIZE && Decoded(Some(EncodeZ(es))) == MapOf(es)
    ensures Count(EncodeZ(es)) == |es| && Entries(EncodeZ(es), HEADER_SIZE) == es
  {
    DecodeOfEncodeZ(es);
    hide EncodeEntries, Entries, Count, MapOf;
    assert es[..|es|] == es;
  }

  lemma StepRefines(v: Value, m: Scored, a: Addition, v': Value, reply: int)
    requires Holds(v, m) && |m| < TWO_63
    requires ZAddOutcome(v, a.score, a.member, v', reply)
    ensures Holds(v', MapStep(m, a).0) && reply == MapStep(m, a).1
    ensures |MapStep(m, a).0| <= |m| + 1
  {
    var es := DecodesTo(v, m);
    if a.member != [] {
      var m' := m[a.member := a.score];
      assert a.member in m';
      assert m'.Keys == m.Keys + {a.member};
    }
  }

  lemma {:induction false} RunRefines(v: Value, m: Scored, adds: seq<Addition>, v': Value, replies: seq<int>)
    requires Holds(v, m) && |m| + |adds| < TWO_63
    requires Run(v, adds, v', replies)
    ensures Holds(v', RunMap(m, adds).0) && replies == RunMap(m, adds).1
    ensures |RunMap(m, adds).0| <= |m| + |adds|
    decreases |adds|
  {
    hide ZAddOutcome, Holds, MapStep;
    if adds == [] {
    } else {
      var a := adds[0];
      var mid :| ZAddOutcome(v, a.score, a.member, mid, replies[0]) && Run(mid, adds[1..], v', replies[1..]);
      StepRefines(v, m, a, mid, replies[0]);
      RunRefines(mid, MapStep(m, a).0, adds[1..], v', replies[1..]);
      assert replies == [replies[0]] + replies[1..];
    }
  }

  /** One more addition at the end of a run. */
  lemma {:induction false} RunSnoc(v: Value, adds: seq<Addition>, mid: Value, replies: seq<int>,
                                   a: Addition, v': Value, reply: int)
    requires Run(v, adds, mid, replies) && ZAddOutcome(mid, a.score, a.member, v', reply)
    ensures Run(v, adds + [a], v', replies + [reply])
    decreases |adds|
  {
    hide ZAddOutcome;
    if adds == [] {
      assert Run(v', [], v', []);
      assert (adds + [a])[1..] == [] && (replies + [reply])[1..] == [];
    } else {
      var next :| ZAddOutcome(v, adds[0].score, adds[0].member, next, replies[0])
               && Run(next, adds[1..], mid, replies[1..]);
      RunSnoc(next, adds[1..], mid, replies[1..], a, v', reply);
      assert (adds + [a])[1..] == adds[1..] + [a];
      assert (replies + [reply])[1..] == replies[1..] + [reply];
    }
  }

  // ----- the canonical form, and NaN -----

  /** Some addition is for member `k`. */
  predicate Assigns(adds: seq<Addition>, k: Item) {
    exists a :: a in adds && a.member == k
  }

  /** The last addition for each member carries a number; earlier ones may carry a NaN. */
  ghost predicate NaNOverwritten(adds: seq<Addition>) {
    forall i :: 0 <= i < |adds| && adds[i].member != [] && IsNaN(adds[i].score) ==>
      Assigns(adds[i + 1..], adds[i].member)
  }

  lemma AssignsCons(adds: seq<Addition>, k: Item)
    requires adds != []
    ensures Assigns(adds, k) <==> adds[0].member == k || Assigns(adds[1..], k)
  {
    assert adds == [adds[0]] + adds[1..];
    assert adds[0] in adds;
    assert forall a :: a in adds <==> a == adds[0] || a in adds[1..];
  }

  lemma OverwrittenCons(adds: seq<Addition>)
    requires adds != []
    ensures NaNOverwritten(adds) <==>
              && (adds[0].member != [] && IsNaN(adds[0].score) ==> Assigns(adds[1..], adds[0].member))
              && NaNOverwritten(adds[1..])
  {
    var rest := adds[1..];
    assert forall i :: 0 <= i < |rest| ==> rest[i] == adds[i + 1] && rest[i + 1..] == adds[i + 2..];
    if NaNOverwritten(adds) {
      forall i | 0 <= i < |rest| && rest[i].member != [] && IsNaN(rest[i].score)
        ensures Assigns(rest[i + 1..], rest[i].member)
      {
        assert adds[i + 1] == rest[i];
      }
    }
    if (adds[0].member != [] && IsNaN(adds[0].score) ==> Assigns(rest, adds[0].member)) && NaNOverwritten(rest) {
      forall i | 0 <= i < |adds| && adds[i].member != [] && IsNaN(adds[i].score)
        ensures Assigns(adds[i + 1..], adds[i].member)
      {
        assert i > 0 ==> rest[i - 1] == adds[i];
      }
    }
  }

  /** The final map has no NaN exactly when every NaN of the history was overwritten. */
  lemma {:induction false} NaNFreeExactly(m: Scored, adds: seq<Addition>)
    requires [] !in m
    ensures NaNFreeMap(RunMap(m, adds).0) <==>
              NaNOverwritten(adds) && forall k :: k in m && IsNaN(m[k]) ==> Assigns(adds, k)
    decreases |adds|
  {
    if adds == [] {
    } else {
      var a := adds[0];
      var m1 := MapStep(m, a).0;
      NaNFreeExactly(m1, adds[1..]);
      OverwrittenCons(adds);
      forall k: Item ensures Assigns(adds, k) <==> a.member == k || Assigns(adds[1..], k) {
        AssignsCons(adds, k);
      }
      if a.member != [] {
        assert a.member in m1 && m1[a.member] == a.score;
        assert forall k :: k in m1 <==> k in m || k == a.member;
        assert forall k :: k in m && k != a.member ==> m1[k] == m[k];
      }
    }
  }

  /** The score of the last addition for `k`, if there is one. */
  function LastScore(adds: seq<Addition>, k: Item): Option<uint64> {
    if adds == [] then None
    else
      var later := LastScore(adds[1..], k);
      if later.Some? then later else if adds[0].member == k then Some(adds[0].score) else None
  }

  /** The replies, each 0 or 1, add up to the number of members that are new. */
  function Total(replies: seq<int>): int {
    if replies == [] then 0 else replies[0] + Total(replies[1..])
  }

  /** In the final map every member has the score it was given last. */
  lemma {:induction false} ScoreIsLast(m: Scored, adds: seq<Addition>, k: Item)
    requires k != []
    ensures var final, last := RunMap(m, adds).0, LastScore(adds, k);
            if last.Some? then k in final && final[k] == last.value
            else (k in final <==> k in m) && (k in m ==> final[k] == m[k])
    decreases |adds|
  {
    if adds == [] {
    } else {
      ScoreIsLast(MapStep(m, adds[0]).0, adds[1..], k);
    }
  }

  lemma {:induction false} AddedIsGrowth(m: Scored, adds: seq<Addition>)
    ensures |RunMap(m, adds).1| == |adds|
    ensures forall i :: 0 <= i < |adds| ==> 0 <= RunMap(m, adds).1[i] <= 1
    ensures Total(RunMap(m, adds).1) == |RunMap(m, adds).0| - |m|
    decreases |adds|
  {
    if adds == [] {
    } else {
      var (m1, r) := MapStep(m, adds[0]);
      AddedIsGrowth(m1, adds[1..]);
      assert RunMap(m, adds).1[1..] == RunMap(m1, adds[1..]).1;
      if adds[0].member != [] {
        assert m1.Keys == m.Keys + {adds[0].member};
        assert |m1| == |m1.Keys| && |m| == |m.Keys|;
      }
    }
  }

  /**
   Canonical form: after a history whose final map has no NaN, the stored entries are strictly
   increasing by (score, member), have distinct members, and are the final map; each reply
   says whether the member was new.
   */
  lemma CanonicalForm(adds: seq<Addition>, v: Value, replies: seq<int>) returns (es: seq<Entry>)
    requires |adds| < TWO_63 && NaNFreeMap(RunMap(map[], adds).0)
    requires Run(None, adds, v, replies)
    ensures replies == RunMap(map[], adds).1
    ensures v == if es == [] then None else Some(EncodeZ(es))
    ensures Sorted(es) && DistinctMembers(es) && MapOf(es) == RunMap(map[], adds).0
  {
    var m := RunMap(map[], adds).0;
    RunRefines(None, map[], adds, v, replies);
    es := DecodesTo(v, m);
    MapOfDistinct(es, m);
    if m != map[] {
      var fs :| Represents(fs, m) && v.value == EncodeZ(fs);
      RepresentationUnique(es, fs, m);
    }
  }

  /**
   The bytes depend only on the final map: not on the order of the additions, on scores
   overwritten on the way, or on the iteration order of any of the maps in between.
   */
  lemma BytesDependOnMapOnly(adds1: seq<Addition>, v1: Value, r1: seq<int>,
                             adds2: seq<Addition>, v2: Value, r2: seq<int>)
    requires |adds1| < TWO_63 && |adds2| < TWO_63
    requires Run(None, adds1, v1, r1) && Run(None, adds2, v2, r2)
    requires RunMap(map[], adds1).0 == RunMap(map[], adds2).0 && NaNFreeMap(RunMap(map[], adds1).0)
    ensures v1 == v2
  {
    var m := RunMap(map[], adds1).0;
    RunRefines(None, map[], adds1, v1, r1);
    RunRefines(None, map[], adds2, v2, r2);
    if m != map[] {
      var es :| Represents(es, m) && v1.value == EncodeZ(es);
      var fs :| Represents(fs, m) && v2.value == EncodeZ(fs);
      RepresentationUnique(es, fs, m);
    }
  }

  /**
   What is stored is sorted exactly when every NaN of the history was overwritten, or fewer
   than two members are left.
   */
  lemma SortedExactly(adds: seq<Addition>, v: Value, replies: seq<int>)
    requires |adds| < TWO_63 && Run(None, adds, v, replies) && v.Some?
    ensures |v.value| >= HEADER_SIZE
    ensures Sorted(Entries(v.value, HEADER_SIZE)) <==> NaNOverwritten(adds) || |RunMap(map[], adds).0| <= 1
  {
    var m := RunMap(map[], adds).0;
    RunRefines(None, map[], adds, v, replies);
    NaNFreeExactly(map[], adds);
    var es := DecodesTo(v, m);
    hide Run, RunMap, NaNOverwritten, Entries;
    if !NaNFreeMap(m) && |m| > 1 {
      var k :| k in m && IsNaN(m[k]);
      KeyHasEntry(es, m, k);
      var i :| 0 <= i < |es| && es[i] == Entry(m[k], k);
      NaNHasNoPlace(es, i);
    }
  }

  /** The bit pattern of Go's NaN. */
  const NAN: uint64 := 0x7FF8_0000_0000_0001

  lemma FirstAddition(x: Entry)
    requires x.member != []
    ensures ZAddOutcome(None, x.score, x.member, Some(EncodeZ([x])), 1)
  {
    assert Represents([x], map[x.member := x.score]);
  }

  lemma StoredSingleton(x: Entry)
    ensures Decoded(Some(EncodeZ([x]))) == map[x.member := x.score]
  {
    DecodeOfEncodeZ([x]);
    assert [x][..1] == [x];
    MapOfDistinct([x], map[x.member := x.score]);
  }

  /** Beside a NaN, the new entry may end up anywhere; here, behind it. */
  lemma AdditionAfterNaN(x: Entry, y: Entry)
    requires IsNaN(x.score) && y.member != [] && x.member != y.member
    ensures ZAddOutcome(Some(EncodeZ([x])), y.score, y.member, Some(EncodeZ([x, y])), 1)
  {
    StoredSingleton(x);
    hide EncodeZ, Decoded;
    var m := map[x.member := x.score][y.member := y.score];
    assert m[x.member] == x.score;
    assert Represents([x, y], m);
  }

  lemma RunOfTwo(a: Addition, b: Addition, v1: Value, v2: Value)
    requires ZAddOutcome(None, a.score, a.member, v1, 1) && ZAddOutcome(v1, b.score, b.member, v2, 1)
    ensures Run(None, [a, b], v2, [1, 1])
  {
    hide ZAddOutcome;
    assert [a, b][1..] == [b] && [b][1..] == [] && [1, 1][1..] == [1] && [1][1..] == [];
    assert Run(v2, [], v2, []);
    assert Run(v1, [b], v2, [1]);
  }

  /** The failing input: a NaN score for one member and a number for another. */
  lemma NaNHistoryUnsorted() returns (v: Value, replies: seq<int>)
    ensures Run(None, [Addition(NAN, [97]), Addition(0, [98])], v, replies)
    ensures v.Some? && |v.value| >= HEADER_SIZE && !Sorted(Entries(v.value, HEADER_SIZE))
  {
    var x, y := Entry(NAN, [97]), Entry(0, [98]);
    v, replies := Some(EncodeZ([x, y])), [1, 1];
    FirstAddition(x);
    AdditionAfterNaN(x, y);
    RunOfTwo(Addition(NAN, [97]), Addition(0, [98]), Some(EncodeZ([x])), v);
    DecodeOfEncodeZ([x, y]);
    NaNHasNoPlace([x, y], 0);
  }

  // ----- ZRANGE and ZCOUNT -----

  /** ZRANGE is the clamped slice, for every pair of 64-bit arguments. */
  lemma RangeIsSlice(v: Value, es: seq<Entry>, start: int64, stop: int64)
    requires Fits(es) && v == (if es == [] then None else Some(EncodeZ(es)))
    ensures ZRangeBytes(v, start, stop) == MembersOf(ListRuns.Slice(es, start, stop))
  {
    if es != [] {
      DecodeOfEncodeZ(es);
      hide MembersOf, EncodeZ, Entries, Count;
      WindowIsSlice(es, start, stop);
    }
  }

  lemma WindowIsSlice<T>(xs: seq<T>, start: int64, stop: int64)
    requires 0 < |xs| < TWO_63
    ensures var (first, last) := Lists.Window(start, stop, |xs|);
            && last < |xs|
            && ListRuns.Slice(xs, start, stop) == (if last < first then [] else xs[first..last + 1])
  {
  }

  lemma {:induction false} CountInBounds(es: seq<Entry>, lo: nat, hi: nat, min: uint64, max: uint64)
    requires lo <= hi <= |es|
    requires forall i :: 0 <= i < |es| ==> (InRange(es[i].score, min, max) <==> lo <= i < hi)
    ensures CountIn(es, min, max) == hi - lo
    decreases |es|
  {
    if es == [] {
    } else {
      var n := |es| - 1;
      var rest := es[..n];
      var hi' := if hi == |es| && lo < hi then hi - 1 else if hi == |es| then n else hi;
      var lo' := if lo == |es| then n else lo;
      assert forall i :: 0 <= i < n ==> rest[i] == es[i];
      CountInBounds(rest, lo', hi', min, max);
    }
  }

  /** The members whose scores lie in the interval. */
  function Within(m: Scored, min: uint64, max: uint64): set<Item> {
    set k | k in m && InRange(m[k], min, max)
  }

  /** The ranks of a sorted sequence whose scores lie in an interval form one block. */
  lemma {:induction false} InRangeBlock(es: seq<Entry>, min: uint64, max: uint64) returns (lo: nat, hi: nat)
    requires Sorted(es)
    ensures lo <= hi <= |es|
    ensures forall i :: 0 <= i < |es| ==> (InRange(es[i].score, min, max) <==> lo <= i < hi)
    decreases |es|
  {
    if es == [] {
      lo, hi := 0, 0;
    } else {
      var n := |es| - 1;
      var rest := es[..n];
      assert Sorted(rest);
      lo, hi := InRangeBlock(rest, min, max);
      assert forall i :: 0 <= i < n ==> rest[i] == es[i];
      if InRange(es[n].score, min, max) {
        if lo < hi {
          forall i | hi <= i < n ensures InRange(es[i].score, min, max) {
            assert InRange(es[lo].score, min, max);
            InRangeConvex(es, lo, i, n, min, max);
          }
          hi := |es|;
        } else {
          lo, hi := n, |es|;
        }
      }
    }
  }

  /**
   ZCOUNT is the size of a rank range, and ZRANGE over that range returns exactly the members
   whose scores lie in the interval. The bounds may be any bit patterns, NaN included.
   */
  lemma CountIsSlice(v: Value, m: Scored, min: uint64, max: uint64) returns (lo: nat, hi: nat)
    requires Holds(v, m) && NaNFreeMap(m) && |m| < TWO_63
    ensures lo <= hi <= |m|
    ensures ZCountBytes(v, min, max) == hi - lo
    ensures lo < hi ==> Sets.Enumerates(ZRangeBytes(v, lo, hi - 1), Within(m, min, max))
    ensures lo < hi ==> |ZRangeBytes(v, lo, hi - 1)| == hi - lo
    ensures lo == hi ==> Within(m, min, max) == {}
  {
    hide ZRangeBytes, ListRuns.Slice, MembersOf, CountIn, EncodeZ, Holds, Within, Represents, Sorted;
    hide Decoded, Entries, Sets.Enumerates;
    var es := DecodesTo(v, m);
    lo, hi := InRangeBlock(es, min, max);
    CountInBounds(es, lo, hi, min, max);
    assert es[..|es|] == es;
    BlockMembers(es, m, lo, hi, min, max);
    if lo < hi {
      StoredEntries(v, m, es);
      RangeIsSlice(v, es, lo, hi - 1);
      SliceOfBlock(es, lo, hi);
    }
  }

  lemma StoredEntries(v: Value, m: Scored, es: seq<Entry>)
    requires Holds(v, m) && NaNFreeMap(m) && Represents(es, m) && es != []
    ensures v == Some(EncodeZ(es))
  {
    assert es[0] in es;
    var fs :| Represents(fs, m) && v.value == EncodeZ(fs);
    RepresentationUnique(es, fs, m);
  }

  lemma SliceOfBlock<T>(xs: seq<T>, lo: nat, hi: nat)
    requires lo < hi <= |xs|
    ensures ListRuns.Slice(xs, lo, hi - 1) == xs[lo..hi]
  {
  }

  lemma BlockMembers(es: seq<Entry>, m: Scored, lo: nat, hi: nat, min: uint64, max: uint64)
    requires Represents(es, m) && lo <= hi <= |es|
    requires forall i :: 0 <= i < |es| ==> (InRange(es[i].score, min, max) <==> lo <= i < hi)
    ensures Sets.Enumerates(MembersOf(es[lo..hi]), Within(m, min, max))
    ensures lo == hi ==> Within(m, min, max) == {}
  {
    var ks := MembersOf(es[lo..hi]);
    forall k | k in m && InRange(m[k], min, max) ensures k in ks {
      KeyHasEntry(es, m, k);
      var i :| 0 <= i < |es| && es[i] == Entry(m[k], k);
      assert ks[i - lo] == k;
    }
    if lo == hi {
      assert ks == [];
    }
    forall k | k in ks ensures k in m && InRange(m[k], min, max) {
      var i :| 0 <= i < |ks| && ks[i] == k;
      assert es[lo + i] in es;
    }
  }

  // ----- the replies by the values of the scores -----

  /** The score of `a` is the smaller number, or the same number and `a` comes first as bytes. */
  ghost predicate Precedes(m: Scored, a: Item, b: Item)
    requires a in m && b in m
  {
    || ScoreOrder.Numeric(m[a]) < ScoreOrder.Numeric(m[b])
    || (ScoreOrder.Numeric(m[a]) == ScoreOrder.Numeric(m[b]) && ScoreOrder.Before(a, b))
  }

  predicate Between(score: uint64, min: uint64, max: uint64) {
    && !IsNaN(min) && !IsNaN(max)
    && ScoreOrder.Numeric(min) <= ScoreOrder.Numeric(score) <= ScoreOrder.Numeric(max)
  }

  lemma LessIsPrecedes(m: Scored, a: Entry, b: Entry)
    requires a.member in m && m[a.member] == a.score && b.member in m && m[b.member] == b.score
    requires EntryLess(a, b)
    ensures Precedes(m, a.member, b.member)
  {
    hide ScoreOrder.Numeric, ScoreOrder.Before, ScoreLess, ScoreEq;
    ScoreOrder.OrderIsNumeric(a.score, b.score);
    ScoreOrder.LexIsBefore(a.member, b.member);
  }

  lemma WholeRange(v: Value, es: seq<Entry>)
    requires es != [] && Fits(es) && v == Some(EncodeZ(es))
    ensures ZRangeBytes(v, 0, -1) == MembersOf(es)
  {
    hide ZRangeBytes, EncodeZ;
    RangeIsSlice(v, es, 0, -1);
    SliceOfBlock(es, 0, |es|);
    assert ListRuns.Slice(es, 0, -1) == ListRuns.Slice(es, 0, |es| - 1);
    assert es[0..|es|] == es;
  }

  /**
   ZRANGE 0 -1 after a history: every member once, from the smallest score to the largest and
   in byte order among equal scores, where scores are compared as numbers.
   */
  lemma RankedByValue(adds: seq<Addition>, v: Value, replies: seq<int>)
    requires |adds| < TWO_63 && NaNFreeMap(RunMap(map[], adds).0)
    requires Run(None, adds, v, replies)
    ensures var m, ks := RunMap(map[], adds).0, ZRangeBytes(v, 0, -1);
            && |ks| == |m| && (forall k :: k in ks <==> k in m)
            && forall i, j :: 0 <= i < j < |ks| ==> Precedes(m, ks[i], ks[j])
  {
    var m := RunMap(map[], adds).0;
    RunRefines(None, map[], adds, v, replies);
    var es := DecodesTo(v, m);
    RankedMembers(es, m);
    hide Run, RunMap, Precedes, ZRangeBytes, EncodeZ, NaNFreeMap, Represents, MembersOf;
    if m == map[] {
      AbsentIsEmpty(0, -1);
    } else {
      StoredEntries(v, m, es);
      hide Holds;
      WholeRange(v, es);
    }
  }

  lemma RankedMembers(es: seq<Entry>, m: Scored)
    requires Represents(es, m) && NaNFreeMap(m)
    ensures forall k :: k in MembersOf(es) <==> k in m
    ensures forall i, j :: 0 <= i < j < |es| ==> Precedes(m, MembersOf(es)[i], MembersOf(es)[j])
  {
    var ks := MembersOf(es);
    hide NaNFreeMap, Precedes, EntryLess;
    forall k ensures k in ks <==> k in m {
      if k in ks {
        var i :| 0 <= i < |ks| && ks[i] == k;
        assert es[i] in es;
      }
      if k in m {
        KeyHasEntry(es, m, k);
        var i :| 0 <= i < |es| && es[i] == Entry(m[k], k);
        assert ks[i] == k;
      }
    }
    forall i, j | 0 <= i < j < |es| ensures Precedes(m, ks[i], ks[j]) {
      assert es[i] in es && es[j] in es;
      LessIsPrecedes(m, es[i], es[j]);
    }
  }

  lemma AbsentIsEmpty(start: int64, stop: int64)
    ensures ZRangeBytes(None, start, stop) == []
  {
  }

  /** ZCOUNT counts the members whose scores, as numbers, lie between the bounds, ends included. */
  lemma CountedByValue(v: Value, m: Scored, min: uint64, max: uint64)
    requires Holds(v, m) && NaNFreeMap(m) && |m| < TWO_63
    ensures ZCountBytes(v, min, max) == |set k | k in m && Between(m[k], min, max)|
  {
    hide Holds, ZCountBytes, ScoreOrder.Numeric, InRange, IsNaN, ZRangeBytes;
    var lo, hi := CountIsSlice(v, m, min, max);
    forall k | k in m ensures InRange(m[k], min, max) <==> Between(m[k], min, max) {
      ScoreOrder.RangeIsNumeric(m[k], min, max);
    }
    assert Within(m, min, max) == set k | k in m && Between(m[k], min, max);
    if lo < hi {
      Sets.DistinctSize(ZRangeBytes(v, lo, hi - 1));
    }
  }
}
