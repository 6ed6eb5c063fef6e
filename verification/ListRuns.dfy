/**
 Whole runs of list commands on one key. The bytes under the key refine a plain sequence,
 and everything proved about the sequence (mirror symmetry, push and pop undoing each other,
 the index laws) is carried over to the bytes.
 */
module ListRuns {
  import opened Bytes
  import opened Codec
  import opened Lists

  datatype Command =
    | PushLeft(values: seq<Item>)
    | PushRight(values: seq<Item>)
    | PopLeft
    | PopRight
    | SetAt(index: int64, value: Item)
    | IndexAt(index: int64)
    | Range(start: int64, stop: int64)
    | Length

  datatype Reply = Number(n: int) | Bulk(item: Item) | Array(items: seq<Item>) | Done | NotFound

  function BulkOrNotFound(item: Option<Item>): Reply {
    if item.Some? then Bulk(item.value) else NotFound
  }

  /** One command on the stored bytes. */
  function ByteStep(v: Value, c: Command): (Value, Reply) {
    match c
    case PushLeft(values) => var (v', n) := LPushBytes(v, values); (v', Number(n))
    case PushRight(values) => var (v', n) := RPushBytes(v, values); (v', Number(n))
    case PopLeft => var (v', x) := LPopBytes(v); (v', BulkOrNotFound(x))
    case PopRight => var (v', x) := RPopBytes(v); (v', BulkOrNotFound(x))
    case SetAt(i, x) => var (v', ok) := LSetBytes(v, i, x); (v', if ok then Done else NotFound)
    case IndexAt(i) => (v, BulkOrNotFound(LIndexBytes(v, i)))
    case Range(a, b) => (v, var r := LRangeBytes(v, a, b); if r.Some? then Array(r.value) else NotFound)
    case Length => (v, Number(LLenBytes(v)))
  }

  // ----- the reference: a sequence -----

  function Position(index: int, n: nat): int {
    if index < 0 then n + index else index
  }

  /** The elements at the positions between both ends, ends included, that exist. */
  function Slice<T>(xs: seq<T>, start: int, stop: int): seq<T> {
    var n := |xs|;
    var from := if Position(start, n) < 0 then 0 else Position(start, n);
    var to := if Position(stop, n) >= n then n else Position(stop, n) + 1;
    if from < to then xs[from..to] else []
  }

  function ListStep(xs: seq<Item>, c: Command): (seq<Item>, Reply) {
    match c
    case PushLeft(values) =>
      if values == [] then (xs, Number(0)) else (Reverse(values) + xs, Number(|values| + |xs|))
    case PushRight(values) =>
      if values == [] then (xs, Number(0)) else (xs + values, Number(|xs| + |values|))
    case PopLeft => if xs == [] then (xs, NotFound) else (xs[1..], Bulk(xs[0]))
    case PopRight => if xs == [] then (xs, NotFound) else (xs[..|xs| - 1], Bulk(xs[|xs| - 1]))
    case SetAt(i, x) =>
      if 0 <= Position(i, |xs|) < |xs| then (xs[Position(i, |xs|) := x], Done) else (xs, NotFound)
    case IndexAt(i) =>
      (xs, if 0 <= Position(i, |xs|) < |xs| then Bulk(xs[Position(i, |xs|)]) else NotFound)
    case Range(a, b) => (xs, Array(Slice(xs, a, b)))
    case Length => (xs, Number(|xs|))
  }

  /** How a sequence is stored: no key when it is empty, its encoding otherwise. */
  function Stored(xs: seq<Item>): Value {
    if xs == [] then None else Some(Encode(xs))
  }

  function Adds(c: Command): nat {
    if c.PushLeft? || c.PushRight? then |c.values| else 0
  }

  lemma ReadsBack(xs: seq<Item>)
    requires Fits(xs)
    ensures Existing(Stored(xs)) == xs
    ensures xs != [] ==> IsListData(Encode(xs)) && Count(Encode(xs)) == |xs| && Items(Encode(xs), HEADER_SIZE) == xs
  {
    if xs != [] {
      DecodeOfEncode(xs);
    }
  }

  lemma PopRefines(xs: seq<Item>)
    requires Fits(xs)
    ensures ByteStep(Stored(xs), PopLeft) == (Stored(ListStep(xs, PopLeft).0), ListStep(xs, PopLeft).1)
    ensures ByteStep(Stored(xs), PopRight) == (Stored(ListStep(xs, PopRight).0), ListStep(xs, PopRight).1)
  {
    if xs != [] {
      DecodeOfEncode(xs);
      var d := Encode(xs);
      assert d[Stop(d, HEADER_SIZE)..] == [];
      assert EncodeItems(xs[1..]) + [] == EncodeItems(xs[1..]);
    }
  }

  lemma SetRefines(xs: seq<Item>, i: int64, x: Item)
    requires Fits(xs)
    ensures ByteStep(Stored(xs), SetAt(i, x))
         == (Stored(ListStep(xs, SetAt(i, x)).0), ListStep(xs, SetAt(i, x)).1)
  {
    if xs != [] {
      DecodeOfEncode(xs);
      assert xs[..|xs|] == xs;
    }
  }

  lemma RangeRefines(xs: seq<Item>, a: int64, b: int64)
    requires Fits(xs)
    ensures LRangeBytes(Stored(xs), a, b) == Some(Slice(xs, a, b))
  {
    if xs != [] {
      DecodeOfEncode(xs);
    }
  }

  lemma PushBytes(v: Value, xs: seq<Item>, values: seq<Item>)
    requires |xs| + |values| < TWO_63
    requires Existing(v) == xs && (v.Some? ==> IsListData(v.value))
    ensures ByteStep(v, PushLeft(values))
         == if values == [] then (v, Number(0)) else (Stored(Reverse(values) + xs), Number(|values| + |xs|))
    ensures ByteStep(v, PushRight(values))
         == if values == [] then (v, Number(0)) else (Stored(xs + values), Number(|xs| + |values|))
  {
    hide IsListData, Encode, Existing, Items;
  }

  lemma PushList(xs: seq<Item>, values: seq<Item>)
    ensures ListStep(xs, PushLeft(values))
         == if values == [] then (xs, Number(0)) else (Reverse(values) + xs, Number(|values| + |xs|))
    ensures ListStep(xs, PushRight(values))
         == if values == [] then (xs, Number(0)) else (xs + values, Number(|xs| + |values|))
  {
  }

  lemma PushRefines(xs: seq<Item>, values: seq<Item>)
    requires |xs| + |values| < TWO_63
    ensures ByteStep(Stored(xs), PushLeft(values))
         == (Stored(ListStep(xs, PushLeft(values)).0), ListStep(xs, PushLeft(values)).1)
    ensures ByteStep(Stored(xs), PushRight(values))
         == (Stored(ListStep(xs, PushRight(values)).0), ListStep(xs, PushRight(values)).1)
  {
    ReadsBack(xs);
    PushBytes(Stored(xs), xs, values);
    PushList(xs, values);
    hide IsListData, Encode, Existing, Items, ByteStep, ListStep, Reverse;
    hide Stored;
  }

  lemma ReadRefines(xs: seq<Item>, i: int64)
    requires Fits(xs)
    ensures ByteStep(Stored(xs), IndexAt(i)) == (Stored(xs), ListStep(xs, IndexAt(i)).1)
    ensures ByteStep(Stored(xs), Length) == (Stored(xs), Number(|xs|))
  {
    ReadsBack(xs);
  }

  /** One command on the bytes does what it does on the sequence, and gives the same reply. */
  lemma StepRefines(xs: seq<Item>, c: Command)
    requires |xs| + Adds(c) < TWO_63
    ensures ByteStep(Stored(xs), c) == (Stored(ListStep(xs, c).0), ListStep(xs, c).1)
    ensures |ListStep(xs, c).0| <= |xs| + Adds(c)
  {
    hide Stored, LRangeBytes, Slice;
    match c
    case PushLeft(values) => hide ByteStep; PushRefines(xs, values);
    case PushRight(values) => hide ByteStep; PushRefines(xs, values);
    case PopLeft => hide ByteStep; PopRefines(xs);
    case PopRight => hide ByteStep; PopRefines(xs);
    case SetAt(i, x) => hide ByteStep; SetRefines(xs, i, x);
    case IndexAt(i) => hide ByteStep; ReadRefines(xs, i);
    case Range(a, b) => RangeRefines(xs, a, b);
    case Length => hide ByteStep; ReadRefines(xs, 0);
  }

  // ----- runs -----

  function RunBytes(v: Value, cs: seq<Command>): (Value, seq<Reply>)
    decreases |cs|
  {
    if cs == [] then (v, [])
    else
      var (v1, r) := ByteStep(v, cs[0]);
      var (v2, rs) := RunBytes(v1, cs[1..]);
      (v2, [r] + rs)
  }

  function RunList(xs: seq<Item>, cs: seq<Command>): (seq<Item>, seq<Reply>)
    decreases |cs|
  {
    if cs == [] then (xs, [])
    else
      var (xs1, r) := ListStep(xs, cs[0]);
      var (xs2, rs) := RunList(xs1, cs[1..]);
      (xs2, [r] + rs)
  }

  function TotalAdds(cs: seq<Command>): nat {
    if cs == [] then 0 else Adds(cs[0]) + TotalAdds(cs[1..])
  }

  /**
   Deque refinement: over any run, every reply is that of the plain sequence, and the key
   is absent exactly when the sequence is empty and holds exactly its encoding otherwise.
   The bound is the range of the stored count.
   */
  lemma {:induction false} DequeRefinement(xs: seq<Item>, cs: seq<Command>)
    requires |xs| + TotalAdds(cs) < TWO_63
    ensures RunBytes(Stored(xs), cs) == (Stored(RunList(xs, cs).0), RunList(xs, cs).1)
    decreases |cs|
  {
    if cs == [] {
    } else {
      StepRefines(xs, cs[0]);
      DequeRefinement(ListStep(xs, cs[0]).0, cs[1..]);
    }
  }

  // ----- lengths and refusals -----

  predicate Pops(c: Command) {
    c.PopLeft? || c.PopRight?
  }

  /** How many pops of the run were answered with a value. */
  function Popped(cs: seq<Command>, replies: seq<Reply>): nat
    requires |replies| == |cs|
  {
    if cs == [] then 0
    else (if Pops(cs[0]) && replies[0].Bulk? then 1 else 0) + Popped(cs[1..], replies[1..])
  }

  lemma {:induction false} RunSize(xs: seq<Item>, cs: seq<Command>)
    ensures |RunList(xs, cs).1| == |cs|
    ensures |RunList(xs, cs).0| == |xs| + TotalAdds(cs) - Popped(cs, RunList(xs, cs).1)
    ensures |RunList(xs, cs).0| <= |xs| + TotalAdds(cs)
    decreases |cs|
  {
    if cs == [] {
    } else {
      var (xs1, r) := ListStep(xs, cs[0]);
      RunSize(xs1, cs[1..]);
      assert RunList(xs, cs).1[1..] == RunList(xs1, cs[1..]).1;
    }
  }

  /** Conservation: after any run LLEN is the old length plus what was pushed less what was popped. */
  lemma LengthConserved(xs: seq<Item>, cs: seq<Command>)
    requires |xs| + TotalAdds(cs) < TWO_63
    ensures var (v, replies) := RunBytes(Stored(xs), cs);
            && |replies| == |cs|
            && ByteStep(v, Length).1 == Number(|xs| + TotalAdds(cs) - Popped(cs, replies))
  {
    DequeRefinement(xs, cs);
    RunSize(xs, cs);
    ReadRefines(RunList(xs, cs).0, 0);
    hide RunBytes, RunList, Stored, Popped, TotalAdds, ByteStep;
  }

  /** A push answers what LLEN says next, unless there was nothing to push. */
  lemma PushAnswersLength(v: Value, values: seq<Item>)
    requires |Existing(v)| + |values| < TWO_63 && values != [] && !Foreign(v)
    ensures ByteStep(v, PushLeft(values)).1 == ByteStep(ByteStep(v, PushLeft(values)).0, Length).1
    ensures ByteStep(v, PushRight(values)).1 == ByteStep(ByteStep(v, PushRight(values)).0, Length).1
  {
    var xs := Existing(v);
    PushBytes(v, xs, values);
    ReadRefines(Reverse(values) + xs, 0);
    ReadRefines(xs + values, 0);
    hide ByteStep, Existing, Encode;
  }

  /** A value that is no list: a string, say, or a sorted set. */
  predicate Foreign(v: Value) {
    v.Some? && !IsListData(v.value)
  }

  /** On a foreign value a push changes nothing and answers 0. */
  lemma PushRefused(v: Value, values: seq<Item>)
    requires Foreign(v)
    ensures ByteStep(v, PushLeft(values)) == (v, Number(0))
    ensures ByteStep(v, PushRight(values)) == (v, Number(0))
  {
  }

  /** A push changes the value exactly when it has something to push and no foreign value in its way. */
  lemma PushChangesExactly(v: Value, values: seq<Item>)
    requires |Existing(v)| + |values| < TWO_63
    ensures ByteStep(v, PushLeft(values)).0 != v <==> values != [] && !Foreign(v)
    ensures ByteStep(v, PushRight(values)).0 != v <==> values != [] && !Foreign(v)
  {
    hide Encode;
    if Foreign(v) {
      PushRefused(v, values);
    } else {
      var xs := Existing(v);
      PushBytes(v, xs, values);
      if v.Some? && values != [] {
        ListDataIsEncoding(v.value);
        if Encode(Reverse(values) + xs) == Encode(xs) {
          EncodeInjective(Reverse(values) + xs, xs);
        }
        if Encode(xs + values) == Encode(xs) {
          EncodeInjective(xs + values, xs);
        }
      }
    }
  }

  predicate PushOrRead(c: Command) {
    c.PushLeft? || c.PushRight? || c.IndexAt? || c.Range? || c.Length?
  }

  /** Over a whole run of pushes and reads a foreign value survives, and every push answers 0. */
  lemma {:induction false} ForeignSurvives(v: Value, cs: seq<Command>)
    requires Foreign(v) && forall c :: c in cs ==> PushOrRead(c)
    ensures RunBytes(v, cs).0 == v && |RunBytes(v, cs).1| == |cs|
    ensures forall i :: 0 <= i < |cs| && (cs[i].PushLeft? || cs[i].PushRight?) ==>
              RunBytes(v, cs).1[i] == Number(0)
    decreases |cs|
  {
    if cs == [] {
    } else {
      var c := cs[0];
      assert c in cs;
      if c.PushLeft? || c.PushRight? {
        PushRefused(v, c.values);
      }
      assert ByteStep(v, c).0 == v;
      hide ByteStep, Foreign;
      ForeignSurvives(v, cs[1..]);
    }
  }

  // ----- mirror symmetry -----

  function Mirror(c: Command): Command {
    match c
    case PushLeft(values) => PushRight(values)
    case PushRight(values) => PushLeft(values)
    case PopLeft => PopRight
    case PopRight => PopLeft
    case SetAt(i, x) => SetAt(-1 - i, x)
    case IndexAt(i) => IndexAt(-1 - i)
    case Range(a, b) => Range(-1 - b, -1 - a)
    case Length => Length
  }

  function MirrorReply(r: Reply): Reply {
    if r.Array? then Array(Reverse(r.items)) else r
  }

  function MirrorAll(cs: seq<Command>): seq<Command> {
    if cs == [] then [] else [Mirror(cs[0])] + MirrorAll(cs[1..])
  }

  function MirrorReplies(rs: seq<Reply>): seq<Reply> {
    if rs == [] then [] else [MirrorReply(rs[0])] + MirrorReplies(rs[1..])
  }

  lemma ReverseOfSlice<T>(xs: seq<T>, from: nat, to: nat)
    requires from <= to <= |xs|
    ensures |Reverse(xs)| == |xs|
    ensures Reverse(xs)[|xs| - to..|xs| - from] == Reverse(xs[from..to])
  {
    var left, right := Reverse(xs)[|xs| - to..|xs| - from], Reverse(xs[from..to]);
    assert |left| == |right| == to - from;
    forall k | 0 <= k < to - from ensures left[k] == right[k] {
      assert left[k] == xs[to - 1 - k];
    }
  }

  lemma SliceMirrors<T>(xs: seq<T>, a: int, b: int)
    ensures Slice(Reverse(xs), -1 - b, -1 - a) == Reverse(Slice(xs, a, b))
  {
    var n := |xs|;
    var from := if Position(a, n) < 0 then 0 else Position(a, n);
    var to := if Position(b, n) >= n then n else Position(b, n) + 1;
    assert Position(-1 - b, n) == n - 1 - Position(b, n);
    assert Position(-1 - a, n) == n - 1 - Position(a, n);
    assert Reverse<T>([]) == [];
    assert |Reverse(xs)| == n;
    hide Reverse, Position;
    if from < to {
      ReverseOfSlice(xs, from, to);
      assert Slice(xs, a, b) == xs[from..to];
      assert Slice(Reverse(xs), -1 - b, -1 - a) == Reverse(xs)[n - to..n - from];
    } else {
      assert Slice(xs, a, b) == [];
      assert Slice(Reverse(xs), -1 - b, -1 - a) == [];
    }
  }

  lemma PushMirrors(xs: seq<Item>, values: seq<Item>)
    ensures Reverse(Reverse(values) + xs) == Reverse(xs) + values
    ensures Reverse(xs + values) == Reverse(values) + Reverse(xs)
  {
  }

  lemma PopMirrors(xs: seq<Item>)
    requires xs != []
    ensures Reverse(xs[1..]) == Reverse(xs)[..|xs| - 1]
    ensures Reverse(xs[..|xs| - 1]) == Reverse(xs)[1..]
  {
  }

  lemma SetMirrors(xs: seq<Item>, j: nat, x: Item)
    requires j < |xs|
    ensures Reverse(xs[j := x]) == Reverse(xs)[|xs| - 1 - j := x]
  {
  }

  lemma StepMirrors(xs: seq<Item>, c: Command)
    ensures ListStep(Reverse(xs), Mirror(c)) == (Reverse(ListStep(xs, c).0), MirrorReply(ListStep(xs, c).1))
  {
    hide Slice;
    match c
    case Range(a, b) => SliceMirrors(xs, a, b);
    case PushLeft(values) => PushMirrors(xs, values);
    case PushRight(values) => PushMirrors(xs, values);
    case PopLeft => if xs != [] { PopMirrors(xs); }
    case PopRight => if xs != [] { PopMirrors(xs); }
    case SetAt(i, x) =>
      var j := Position(i, |xs|);
      assert Position(-1 - i, |xs|) == |xs| - 1 - j;
      if 0 <= j < |xs| {
        SetMirrors(xs, j, x);
      }
    case IndexAt(i) => assert Position(-1 - i, |xs|) == |xs| - 1 - Position(i, |xs|);
    case Length =>
  }

  lemma {:induction false} RunMirrors(xs: seq<Item>, cs: seq<Command>)
    ensures RunList(Reverse(xs), MirrorAll(cs))
         == (Reverse(RunList(xs, cs).0), MirrorReplies(RunList(xs, cs).1))
    ensures TotalAdds(MirrorAll(cs)) == TotalAdds(cs)
    decreases |cs|
  {
    if cs == [] {
    } else {
      StepMirrors(xs, cs[0]);
      RunMirrors(ListStep(xs, cs[0]).0, cs[1..]);
      assert MirrorAll(cs)[1..] == MirrorAll(cs[1..]);
      var rs := RunList(xs, cs).1;
      assert rs[1..] == RunList(ListStep(xs, cs[0]).0, cs[1..]).1;
    }
  }

  /**
   Mirror symmetry of the stored bytes: running the left-right mirror image of any run on
   the reversed list gives the mirrored replies and the reversed list.
   */
  lemma MirrorSymmetry(xs: seq<Item>, cs: seq<Command>)
    requires |xs| + TotalAdds(cs) < TWO_63
    ensures RunBytes(Stored(Reverse(xs)), MirrorAll(cs)).1 == MirrorReplies(RunBytes(Stored(xs), cs).1)
    ensures exists ys :: RunBytes(Stored(xs), cs).0 == Stored(ys)
                      && RunBytes(Stored(Reverse(xs)), MirrorAll(cs)).0 == Stored(Reverse(ys))
  {
    RunMirrors(xs, cs);
    DequeRefinement(xs, cs);
    DequeRefinement(Reverse(xs), MirrorAll(cs));
    var ys := RunList(xs, cs).0;
    assert RunBytes(Stored(xs), cs).0 == Stored(ys);
  }

  // ----- pushes undone by pops -----

  function Flatten(vss: seq<seq<Item>>): seq<Item> {
    if vss == [] then [] else vss[0] + Flatten(vss[1..])
  }

  function PushesLeft(vss: seq<seq<Item>>): seq<Command> {
    if vss == [] then [] else [PushLeft(vss[0])] + PushesLeft(vss[1..])
  }

  function PushesRight(vss: seq<seq<Item>>): seq<Command> {
    if vss == [] then [] else [PushRight(vss[0])] + PushesRight(vss[1..])
  }

  function Repeat(c: Command, n: nat): (cs: seq<Command>) {
    if n == 0 then [] else [c] + Repeat(c, n - 1)
  }

  function Bulks(xs: seq<Item>): seq<Reply> {
    if xs == [] then [] else [Bulk(xs[0])] + Bulks(xs[1..])
  }

  lemma {:induction false} RunListConcat(xs: seq<Item>, cs: seq<Command>, ds: seq<Command>)
    ensures RunList(xs, cs + ds) ==
            var (ys, rs) := RunList(xs, cs); (RunList(ys, ds).0, rs + RunList(ys, ds).1)
    ensures TotalAdds(cs + ds) == TotalAdds(cs) + TotalAdds(ds)
    decreases |cs|
  {
    if cs == [] {
      assert cs + ds == ds;
      assert [] + RunList(xs, ds).1 == RunList(xs, ds).1;
    } else {
      assert (cs + ds)[1..] == cs[1..] + ds;
      var (xs1, r) := ListStep(xs, cs[0]);
      RunListConcat(xs1, cs[1..], ds);
      var (ys, rs) := RunList(xs1, cs[1..]);
      assert [r] + (rs + RunList(ys, ds).1) == ([r] + rs) + RunList(ys, ds).1;
    }
  }

  lemma {:induction false} PushesLeftList(xs: seq<Item>, vss: seq<seq<Item>>)
    ensures RunList(xs, PushesLeft(vss)).0 == Reverse(Flatten(vss)) + xs
    ensures TotalAdds(PushesLeft(vss)) == |Flatten(vss)|
    ensures |RunList(xs, PushesLeft(vss)).1| == |vss|
    decreases |vss|
  {
    if vss == [] {
    } else {
      var cs := PushesLeft(vss);
      assert cs[1..] == PushesLeft(vss[1..]);
      var xs1 := ListStep(xs, PushLeft(vss[0])).0;
      assert xs1 == Reverse(vss[0]) + xs;
      PushesLeftList(xs1, vss[1..]);
      assert Reverse(Flatten(vss)) == Reverse(Flatten(vss[1..])) + Reverse(vss[0]);
    }
  }

  lemma {:induction false} PopsLeftList(ys: seq<Item>, xs: seq<Item>)
    ensures RunList(ys + xs, Repeat(PopLeft, |ys|)) == (xs, Bulks(ys))
    ensures TotalAdds(Repeat(PopLeft, |ys|)) == 0
    decreases |ys|
  {
    if ys == [] {
      assert ys + xs == xs;
    } else {
      assert (ys + xs)[1..] == ys[1..] + xs;
      PopsLeftList(ys[1..], xs);
      assert Repeat(PopLeft, |ys|)[1..] == Repeat(PopLeft, |ys[1..]|);
    }
  }

  lemma PushPopLeftStored(xs: seq<Item>, vss: seq<seq<Item>>)
    requires |xs| + |Flatten(vss)| < TWO_63
    ensures var cs := PushesLeft(vss) + Repeat(PopLeft, |Flatten(vss)|);
            var (v, rs) := RunBytes(Stored(xs), cs);
            v == Stored(xs) && |rs| >= |vss| && rs[|vss|..] == Bulks(Reverse(Flatten(vss)))
  {
    var n := |Flatten(vss)|;
    PushesLeftList(xs, vss);
    RunListConcat(xs, PushesLeft(vss), Repeat(PopLeft, n));
    PopsLeftList(Reverse(Flatten(vss)), xs);
    DequeRefinement(xs, PushesLeft(vss) + Repeat(PopLeft, n));
  }

  lemma {:induction false} MirrorOfRightRun(vss: seq<seq<Item>>, n: nat)
    ensures MirrorAll(PushesLeft(vss) + Repeat(PopLeft, n)) == PushesRight(vss) + Repeat(PopRight, n)
    decreases |vss|, n
  {
    var cs := PushesLeft(vss) + Repeat(PopLeft, n);
    if vss != [] {
      assert cs[1..] == PushesLeft(vss[1..]) + Repeat(PopLeft, n);
      MirrorOfRightRun(vss[1..], n);
    } else if n > 0 {
      assert cs[1..] == PushesLeft(vss) + Repeat(PopLeft, n - 1);
      MirrorOfRightRun(vss, n - 1);
    } else {
      assert cs == [];
    }
  }

  lemma {:induction false} MirrorKeepsBulks(rs: seq<Reply>, k: nat, xs: seq<Item>)
    requires k <= |rs| && rs[k..] == Bulks(xs)
    ensures |MirrorReplies(rs)| == |rs| && MirrorReplies(rs)[k..] == Bulks(xs)
    decreases |rs|
  {
    if rs == [] {
      assert rs[k..] == [];
    } else {
      if k > 0 {
        assert rs[1..][k - 1..] == rs[k..];
        MirrorKeepsBulks(rs[1..], k - 1, xs);
      } else {
        assert rs == rs[k..] && rs[1..] == Bulks(xs[1..]);
        assert rs[1..][0..] == rs[1..];
        MirrorKeepsBulks(rs[1..], 0, xs[1..]);
      }
    }
  }

  lemma PushPopRightStored(xs: seq<Item>, vss: seq<seq<Item>>)
    requires |xs| + |Flatten(vss)| < TWO_63
    ensures var cs := PushesRight(vss) + Repeat(PopRight, |Flatten(vss)|);
            var (v, rs) := RunBytes(Stored(xs), cs);
            v == Stored(xs) && |rs| >= |vss| && rs[|vss|..] == Bulks(Reverse(Flatten(vss)))
  {
    var n := |Flatten(vss)|;
    var left := PushesLeft(vss) + Repeat(PopLeft, n);
    var ys := Reverse(xs);
    assert Reverse(ys) == xs;
    PushesLeftList(ys, vss);
    RunListConcat(ys, PushesLeft(vss), Repeat(PopLeft, n));
    PopsLeftList(Reverse(Flatten(vss)), ys);
    MirrorOfRightRun(vss, n);
    RunMirrors(ys, left);
    DequeRefinement(xs, MirrorAll(left));
    MirrorKeepsBulks(RunList(ys, left).1, |vss|, Reverse(Flatten(vss)));
  }

  // Well-formed bytes are stored by the commands, or are the encoding of the empty list, which
  // SET can write.

  /** Where the first value is pushed, if any is. */
  lemma {:induction false} FirstPush(vss: seq<seq<Item>>) returns (i: nat)
    ensures i <= |vss| && (i == |vss| <==> Flatten(vss) == [])
    ensures forall j :: 0 <= j < i ==> vss[j] == []
    ensures i < |vss| ==> 0 < |vss[i]| <= |Flatten(vss)|
  {
    if vss == [] {
      i := 0;
    } else if vss[0] == [] {
      var k := FirstPush(vss[1..]);
      i := k + 1;
    } else {
      i := 0;
    }
  }

  lemma {:induction false} PushesAt(vss: seq<seq<Item>>)
    ensures |PushesLeft(vss)| == |PushesRight(vss)| == |vss|
    ensures forall j :: 0 <= j < |vss| ==>
              PushesLeft(vss)[j] == PushLeft(vss[j]) && PushesRight(vss)[j] == PushRight(vss[j])
  {
    if vss == [] {
    } else {
      PushesAt(vss[1..]);
    }
  }

  predicate PushesNothing(c: Command) {
    (c.PushLeft? || c.PushRight?) && c.values == []
  }

  lemma {:induction false} NothingPushed(v: Value, cs: seq<Command>)
    requires forall c :: c in cs ==> PushesNothing(c)
    ensures RunBytes(v, cs).0 == v && |RunBytes(v, cs).1| == |cs|
    decreases |cs|
  {
    if cs == [] {
    } else {
      assert cs[0] in cs;
      NothingPushed(v, cs[1..]);
    }
  }

  lemma EmptyReadsBack()
    ensures IsListData(Encode([])) && Existing(Some(Encode([]))) == [] && Count(Encode([])) == 0
  {
    DecodeOfEncode([]);
  }

  /** The first push of a value makes the encoding of the empty list and no key the same. */
  lemma {:induction false} EmptyIsAbsent(cs: seq<Command>, i: nat)
    requires i < |cs| && 0 < Adds(cs[i]) < TWO_63
    requires forall j :: 0 <= j < i ==> PushesNothing(cs[j])
    ensures RunBytes(Some(Encode([])), cs) == RunBytes(None, cs)
    decreases i
  {
    if i == 0 {
      EmptyReadsBack();
      PushBytes(Some(Encode([])), [], cs[0].values);
      PushBytes(None, [], cs[0].values);
      hide ByteStep;
    } else {
      EmptyIsAbsent(cs[1..], i - 1);
    }
  }

  /** Popping at an end what was pushed there, seen from well-formed bytes or no key at all. */
  ghost predicate Undone(v: Value, cs: seq<Command>, vss: seq<seq<Item>>) {
    var (v', rs) := RunBytes(v, cs);
    && v' == (if Flatten(vss) == [] then v else Stored(Existing(v)))
    && |rs| >= |vss| && rs[|vss|..] == Bulks(Reverse(Flatten(vss)))
  }

  lemma UndoneFromEmpty(cs: seq<Command>, pushes: seq<Command>, pops: seq<Command>, vss: seq<seq<Item>>)
    requires cs == pushes + pops && |pushes| == |vss| && |pops| == |Flatten(vss)| < TWO_63
    requires forall j :: 0 <= j < |vss| ==>
               pushes[j] == PushLeft(vss[j]) || pushes[j] == PushRight(vss[j])
    requires Undone(None, cs, vss)
    ensures Undone(Some(Encode([])), cs, vss)
  {
    hide Encode;
    var i := FirstPush(vss);
    if i == |vss| {
      assert cs == pushes;
      NothingPushed(Some(Encode([])), cs);
      NothingPushed(None, cs);
    } else {
      EmptyIsAbsent(cs, i);
      EmptyReadsBack();
    }
  }

  lemma {:induction false} RepeatSize(c: Command, n: nat)
    ensures |Repeat(c, n)| == n
  {
    if n == 0 {
    } else {
      RepeatSize(c, n - 1);
    }
  }

  /** Well-formed bytes are what the commands store, or the encoding of the empty list. */
  lemma StoredOrEmpty(v: Value)
    requires v.Some? ==> IsListData(v.value)
    ensures Fits(Existing(v))
    ensures v == Stored(Existing(v)) || (v == Some(Encode([])) && Existing(v) == [])
    ensures v == Stored(Existing(v)) <==> v.None? || Count(v.value) != 0
  {
    EmptyReadsBack();
    if v.Some? {
      ListDataIsEncoding(v.value);
    }
  }

  /**
   Popping as many values as were pushed at the left end, in however many pushes, returns them
   last pushed first. On well-formed bytes, or without a key, it restores what was there byte
   for byte, except that a stored encoding of the empty list is gone once a value was pushed.
   */
  lemma PushPopLeft(v: Value, vss: seq<seq<Item>>)
    requires v.Some? ==> IsListData(v.value)
    requires |Existing(v)| + |Flatten(vss)| < TWO_63
    ensures var cs := PushesLeft(vss) + Repeat(PopLeft, |Flatten(vss)|);
            var (v', rs) := RunBytes(v, cs);
            && (v' == v <==> v.None? || Count(v.value) != 0 || Flatten(vss) == [])
            && (v' != v ==> v' == None)
            && |rs| >= |vss| && rs[|vss|..] == Bulks(Reverse(Flatten(vss)))
  {
    var pops := Repeat(PopLeft, |Flatten(vss)|);
    var cs := PushesLeft(vss) + pops;
    StoredOrEmpty(v);
    PushPopLeftStored(Existing(v), vss);
    if v != Stored(Existing(v)) {
      PushesAt(vss);
      RepeatSize(PopLeft, |Flatten(vss)|);
      UndoneFromEmpty(cs, PushesLeft(vss), pops, vss);
    }
  }

  /** The same at the right end, where the code scans and cuts instead of splicing. */
  lemma PushPopRight(v: Value, vss: seq<seq<Item>>)
    requires v.Some? ==> IsListData(v.value)
    requires |Existing(v)| + |Flatten(vss)| < TWO_63
    ensures var cs := PushesRight(vss) + Repeat(PopRight, |Flatten(vss)|);
            var (v', rs) := RunBytes(v, cs);
            && (v' == v <==> v.None? || Count(v.value) != 0 || Flatten(vss) == [])
            && (v' != v ==> v' == None)
            && |rs| >= |vss| && rs[|vss|..] == Bulks(Reverse(Flatten(vss)))
  {
    var pops := Repeat(PopRight, |Flatten(vss)|);
    var cs := PushesRight(vss) + pops;
    StoredOrEmpty(v);
    PushPopRightStored(Existing(v), vss);
    if v != Stored(Existing(v)) {
      PushesAt(vss);
      RepeatSize(PopRight, |Flatten(vss)|);
      UndoneFromEmpty(cs, PushesRight(vss), pops, vss);
    }
  }

  // ----- index laws -----

  lemma UnitSlice<T>(xs: seq<T>, i: int)
    ensures Slice(xs, i, i) == if 0 <= Position(i, |xs|) < |xs| then [xs[Position(i, |xs|)]] else []
  {
  }

  /** LINDEX finds an element exactly when the one-element range does, and it is that one. */
  lemma IndexIsUnitRange(xs: seq<Item>, i: int64)
    requires Fits(xs)
    ensures LRangeBytes(Stored(xs), i, i)
         == var x := LIndexBytes(Stored(xs), i); Some(if x.Some? then [x.value] else [])
  {
    hide Slice, LRangeBytes, Encode;
    RangeRefines(xs, i, i);
    ReadsBack(xs);
    UnitSlice(xs, i);
  }

  lemma SlicesSplit<T>(xs: seq<T>, i: int)
    requires 1 <= i <= |xs|
    ensures Slice(xs, 0, i - 1) + Slice(xs, i, -1) == xs
  {
    assert Position(0, |xs|) == 0 && Position(i - 1, |xs|) == i - 1;
    assert Position(i, |xs|) == i && Position(-1, |xs|) == |xs| - 1;
    assert Slice(xs, 0, i - 1) == xs[..i] && Slice(xs, i, -1) == xs[i..];
    assert xs[..i] + xs[i..] == xs;
  }

  /** Two adjacent ranges split the list; the split point may be anything but 0. */
  lemma RangesSplit(xs: seq<Item>, i: int64)
    requires Fits(xs) && 1 <= i <= |xs|
    ensures LRangeBytes(Stored(xs), 0, i - 1).Some? && LRangeBytes(Stored(xs), i, -1).Some?
    ensures LRangeBytes(Stored(xs), 0, i - 1).value + LRangeBytes(Stored(xs), i, -1).value == xs
  {
    hide Slice, LRangeBytes, Stored;
    RangeRefines(xs, 0, i - 1);
    RangeRefines(xs, i, -1);
    SlicesSplit(xs, i);
  }

  // ----- LSET on arbitrary bytes -----

  /**
   LSET repairs or refuses. On any byte string it either fails and changes nothing, or it
   leaves a well-formed list of the same count with the new value in place and every other
   readable element kept; at most the replaced element was unreadable before.
   */
  lemma SetRepairsOrRefuses(d: Bytes, i: int64, x: Item)
    ensures var (v, ok) := LSetBytes(Some(d), i, x);
            if !ok then v == Some(d)
            else
              && |d| >= HEADER_SIZE && v.Some? && IsListData(v.value)
              && Count(v.value) == Count(d)
              && var j := Resolve(i, Count(d));
                 var before, after := Items(d, HEADER_SIZE), Items(v.value, HEADER_SIZE);
                 && 0 <= j < |after| && after[j] == x
                 && forall k :: 0 <= k < |after| && k != j ==> k < |before| && after[k] == before[k]
  {
    var (v, ok) := LSetBytes(Some(d), i, x);
    if ok {
      var n, items := Count(d), Items(d, HEADER_SIZE);
      var j := Resolve(i, n);
      var ys := if |items| >= n then items[..n][j := x] else items + [x];
      DecodeOfEncode(ys);
    }
  }

  /** On a well-formed list LSET succeeds exactly for the indices the list has. */
  lemma SetSucceedsInRange(d: Bytes, i: int64, x: Item)
    requires IsListData(d)
    ensures LSetBytes(Some(d), i, x).1 <==> -Count(d) <= i < Count(d)
  {
    ListDataIsEncoding(d);
  }
}
