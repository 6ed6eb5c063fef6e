/**
 What the reading and popping commands see in any bytes whatever: a key may hold a string, a
 damaged list or another type. Said without any decoder, as a relation to the bytes themselves:
 which encodings the bytes begin with, after the count.
 */
module AnyBytes {
  import opened Bytes
  import opened Codec
  import Lists
  import ListRuns
  import Sets
  import ScoreOrder
  import SortedSetRuns
  import opened Scores
  import opened SortedSets

  /** Behind the count, `d` begins with the encodings of `xs`. */
  predicate Begins(d: Bytes, xs: seq<Item>) {
    |d| >= HEADER_SIZE && EncodeItems(xs) <= d[HEADER_SIZE..]
  }

  /** A value without a whole count: no key, or fewer than 8 bytes. */
  predicate Headless(v: Value) {
    v.None? || |v.value| < HEADER_SIZE
  }

  lemma SharedHead<T>(head: seq<T>, xs: seq<T>, ys: seq<T>)
    ensures head + xs <= head + ys <==> xs <= ys
  {
    if head + xs <= head + ys {
      assert xs == (head + xs)[|head|..] && ys == (head + ys)[|head|..];
    }
  }

  lemma ItemsStep(d: Bytes, off: nat)
    requires Complete(d, off)
    ensures Items(d, off) == [ItemAt(d, off)] + Items(d, Next(d, off))
    ensures d[off..] == EncodeItem(ItemAt(d, off)) + d[Next(d, off)..]
  {
    RecordBytes(d, off);
    hide EncodeItem, ItemAt;
    assert d[off..] == d[off..Next(d, off)] + d[Next(d, off)..];
  }

  /** The decoder of the specifications finds the longest such sequence. */
  lemma {:induction false} ItemsAreLongest(d: Bytes, off: nat, xs: seq<Item>)
    requires off <= |d|
    ensures EncodeItems(xs) <= d[off..] <==> xs <= Items(d, off)
    decreases |xs|
  {
    if xs == [] {
    } else {
      var x, rest := xs[0], xs[1..];
      assert xs == [x] + rest;
      EncodeItemsCons(x, rest);
      if EncodeItems(xs) <= d[off..] {
        FirstOfPrefix(d, off, x, rest);
      }
      hide EncodeItems, EncodeItem, ItemAt;
      if Complete(d, off) {
        ItemsStep(d, off);
        ItemsAreLongest(d, Next(d, off), rest);
        hide Items;
        SharedHead([x], rest, Items(d, Next(d, off)));
        SharedHead(EncodeItem(x), EncodeItems(rest), d[Next(d, off)..]);
      }
    }
  }

  lemma FirstOfPrefix(d: Bytes, off: nat, x: Item, rest: seq<Item>)
    requires off <= |d| && EncodeItem(x) + EncodeItems(rest) <= d[off..]
    ensures Complete(d, off) && ItemAt(d, off) == x && Next(d, off) == off + LENGTH_SIZE + |x|
    ensures EncodeItems(rest) <= d[Next(d, off)..]
  {
    var n := off + |EncodeItem(x)|;
    CutPrefix(d, off, EncodeItem(x), EncodeItems(rest));
    RecordReads(d[..off], x, d[n..]);
  }

  lemma CutPrefix(d: Bytes, off: nat, head: Bytes, tail: Bytes)
    requires off <= |d| && head + tail <= d[off..]
    ensures off + |head| <= |d| && d == d[..off] + head + d[off + |head|..]
    ensures tail <= d[off + |head|..]
  {
    var n := off + |head|;
    assert d[off..n] == d[off..][..|head|] == (head + tail)[..|head|] == head;
    assert d[n..] == d[off..][|head|..];
    assert (head + tail)[|head|..] == tail;
  }

  lemma BeginsIsPrefix(d: Bytes, xs: seq<Item>)
    requires |d| >= HEADER_SIZE
    ensures Begins(d, xs) <==> xs <= Items(d, HEADER_SIZE)
  {
    ItemsAreLongest(d, HEADER_SIZE, xs);
  }

  // ----- pops -----

  /**
   LPOP answers `x` exactly when the count is not 0 and the bytes behind it begin with `x`. It
   then cuts those bytes out and takes one from the count, or deletes the key at count 1;
   whatever follows stays as it is. Otherwise it changes nothing.
   */
  lemma LPopExactly(d: Bytes, x: Item)
    ensures Lists.LPopBytes(Some(d)).1 == Some(x) <==> Begins(d, [x]) && Count(d) != 0
    ensures Begins(d, [x]) && Count(d) != 0 ==>
              Lists.LPopBytes(Some(d)).0
              == if Count(d) == 1 then None else Some(Header(Count(d) - 1) + d[HEADER_SIZE + LENGTH_SIZE + |x|..])
    ensures Lists.LPopBytes(Some(d)).1 == None ==> Lists.LPopBytes(Some(d)).0 == Some(d)
  {
    if |d| >= HEADER_SIZE {
      BeginsIsPrefix(d, [x]);
      var items := Items(d, HEADER_SIZE);
      assert [x] <= items <==> items != [] && items[0] == x;
      if items != [] {
        var next := Next(d, HEADER_SIZE);
        EncodeOfItems(d, next);
        assert items[1..] == Items(d, next);
        assert d[next..] == d[next..Stop(d, next)] + d[Stop(d, next)..];
      }
    }
  }

  /**
   The bytes behind the count begin with as many items as the count says, the last one `x`. A
   negative count passes for 1 here, except the least one, which wraps to the largest.
   */
  predicate LastCounted(d: Bytes, xs: seq<Item>, x: Item) {
    && Begins(d, xs + [x]) && Count(d) != 0
    && |xs| == if Wrap64(Count(d) - 1) < 0 then 0 else Wrap64(Count(d) - 1)
  }

  /**
   RPOP answers that item; what is left is those before it under a count less one, or no key at
   count 1, and whatever followed is dropped. When there is no such item, RPOP changes nothing.
   */
  lemma RPopExactly(d: Bytes)
    ensures forall xs, x :: LastCounted(d, xs, x) ==>
              Lists.RPopBytes(Some(d))
              == (if Count(d) == 1 then None else Some(Header(Count(d) - 1) + EncodeItems(xs)), Some(x))
    ensures Lists.RPopBytes(Some(d)) == (Some(d), None) || exists xs, x :: LastCounted(d, xs, x)
  {
    forall xs, x | LastCounted(d, xs, x)
      ensures Lists.RPopBytes(Some(d))
           == (if Count(d) == 1 then None else Some(Header(Count(d) - 1) + EncodeItems(xs)), Some(x))
    {
      LastIsPopped(d, xs, x);
    }
    if Lists.RPopBytes(Some(d)) != (Some(d), None) {
      var xs, x := PoppedIsLast(d);
    }
  }

  lemma LastIsPopped(d: Bytes, xs: seq<Item>, x: Item)
    requires LastCounted(d, xs, x)
    ensures Lists.RPopBytes(Some(d))
         == (if Count(d) == 1 then None else Some(Header(Count(d) - 1) + EncodeItems(xs)), Some(x))
  {
    BeginsIsPrefix(d, xs + [x]);
    var items := Items(d, HEADER_SIZE);
    assert items[..|xs|] == xs && items[|xs|] == x;
  }

  lemma PoppedIsLast(d: Bytes) returns (xs: seq<Item>, x: Item)
    requires Lists.RPopBytes(Some(d)) != (Some(d), None)
    ensures LastCounted(d, xs, x)
  {
    var items := Items(d, HEADER_SIZE);
    var n := if Wrap64(Count(d) - 1) < 0 then 0 else Wrap64(Count(d) - 1);
    xs, x := items[..n], items[n];
    assert xs + [x] <= items;
    BeginsIsPrefix(d, xs + [x]);
  }

  // ----- reads -----

  /** LINDEX answers `x` exactly when enough items precede it; the index must lie within the count. */
  lemma LIndexExactly(d: Bytes, i: int64, x: Item)
    requires |d| >= HEADER_SIZE
    ensures Lists.LIndexBytes(Some(d), i) == Some(x) <==>
              exists xs :: Begins(d, xs + [x]) && |xs| < Count(d) && |xs| == if i < 0 then Count(d) + i else i
  {
    var j: int := if i < 0 then Count(d) + i else i;
    var items := Items(d, HEADER_SIZE);
    if Lists.LIndexBytes(Some(d), i) == Some(x) {
      var xs := items[..j];
      assert xs + [x] <= items;
      BeginsIsPrefix(d, xs + [x]);
      assert Begins(d, xs + [x]);
    }
    forall xs | Begins(d, xs + [x]) && |xs| < Count(d) && |xs| == j
      ensures Lists.LIndexBytes(Some(d), i) == Some(x)
    {
      BeginsIsPrefix(d, xs + [x]);
      assert items[j] == x;
    }
  }

  /** With as many items as the count says, LRANGE is a slice of them, whatever follows. */
  lemma LRangeReads(d: Bytes, xs: seq<Item>, a: int64, b: int64)
    requires Begins(d, xs) && |xs| == Count(d)
    ensures Lists.LRangeBytes(Some(d), a, b) == Some(ListRuns.Slice(xs, a, b))
  {
    BeginsIsPrefix(d, xs);
    var items := Items(d, HEADER_SIZE);
    assert xs == items[..|xs|];
    if xs != [] {
      SortedSetRuns.WindowIsSlice(xs, a, b);
      var (first, last) := Lists.Window(a, b, |xs|);
      if first <= last {
        SameSlice(xs, items, first, last);
      }
      hide ListRuns.Slice, Items, Lists.Window;
    }
  }

  /**
   LSET succeeds exactly for an index within the count when as many items can be read as the
   count says, or all but the last one, that one is to be replaced, and its length field is there.
   */
  lemma LSetSucceedsExactly(d: Bytes, i: int64, x: Item)
    requires |d| >= HEADER_SIZE
    ensures Lists.LSetBytes(Some(d), i, x).1 <==>
              var n, j := Count(d), if i < 0 then Count(d) + i else i;
              && 0 <= j < n
              && exists xs ::
                   && Begins(d, xs)
                   && (|xs| == n
                       || (|xs| == n - 1 == j && HEADER_SIZE + |EncodeItems(xs)| + LENGTH_SIZE <= |d|))
  {
    var n, j := Count(d), if i < 0 then Count(d) + i else i;
    var items := Items(d, HEADER_SIZE);
    EncodeOfItems(d, HEADER_SIZE);
    if Lists.LSetBytes(Some(d), i, x).1 {
      var xs := if |items| >= n then items[..n] else items;
      BeginsIsPrefix(d, xs);
      assert Begins(d, xs);
    }
    if xs :|
      && Begins(d, xs) && 0 <= j < n
      && (|xs| == n || (|xs| == n - 1 == j && HEADER_SIZE + |EncodeItems(xs)| + LENGTH_SIZE <= |d|))
    {
      BeginsIsPrefix(d, xs);
      if |items| < n {
        assert xs == items;
      }
    }
  }

  /** SMEMBERS answers exactly as many items as the count says, or nothing for a count below 1. */
  lemma SMembersExactly(d: Bytes, xs: seq<Item>)
    requires |d| >= HEADER_SIZE
    ensures Sets.SMembersBytes(Some(d)) == Some(xs) <==>
              (|xs| == if Count(d) < 0 then 0 else Count(d)) && Begins(d, xs)
  {
    BeginsIsPrefix(d, xs);
    var items := Items(d, HEADER_SIZE);
    if xs <= items {
      assert xs == items[..|xs|];
    }
  }

  /** The members a set command sees: the items of the bytes, as far as they can be read and the count goes. */
  lemma MembersExactly(d: Bytes, x: Item)
    requires |d| >= HEADER_SIZE
    ensures x in Sets.Members(Some(d)) <==> exists xs :: Begins(d, xs + [x]) && |xs| < Count(d)
    ensures Sets.SIsMemberBytes(Some(d), x) <==> x != [] && x in Sets.Members(Some(d))
  {
    var items := Items(d, HEADER_SIZE);
    var seen := Counted(Count(d), items);
    if x in seen {
      var i :| 0 <= i < |seen| && seen[i] == x;
      var xs := items[..i];
      assert xs + [x] <= items;
      BeginsIsPrefix(d, xs + [x]);
      assert Begins(d, xs + [x]);
    }
    forall xs | Begins(d, xs + [x]) && |xs| < Count(d) ensures x in seen {
      BeginsIsPrefix(d, xs + [x]);
      assert seen[|xs|] == items[|xs|] == x;
    }
  }

  /** Without a whole count every reader finds nothing, every pop fails, and LSET fails. */
  lemma HeadlessIsEmpty(v: Value, i: int64, j: int64, x: Item)
    requires Headless(v)
    ensures Lists.LLenBytes(v) == 0 && Lists.LIndexBytes(v, i) == None && Lists.LRangeBytes(v, i, j) == Some([])
    ensures Lists.LPopBytes(v) == Lists.RPopBytes(v) == (v, None) && Lists.LSetBytes(v, i, x) == (v, false)
    ensures Sets.SMembersBytes(v) == Some([]) && Sets.Members(v) == {} && !Sets.SIsMemberBytes(v, x)
  {
  }

  // ----- sorted sets -----

  predicate BeginsZ(d: Bytes, es: seq<Entry>) {
    |d| >= HEADER_SIZE && EncodeEntries(es) <= d[HEADER_SIZE..]
  }

  lemma EntriesStep(d: Bytes, off: nat)
    requires EntryComplete(d, off)
    ensures var next := Next(d, off + SCORE_SIZE);
            && Entries(d, off) == [EntryAt(d, off)] + Entries(d, next)
            && d[off..] == EncodeEntry(EntryAt(d, off)) + d[next..]
  {
    EntryBytes(d, off);
    assert d[off..] == d[off..Next(d, off + SCORE_SIZE)] + d[Next(d, off + SCORE_SIZE)..];
  }

  lemma EncodeEntriesCons(e: Entry, rest: seq<Entry>)
    ensures EncodeEntries([e] + rest) == EncodeEntry(e) + EncodeEntries(rest)
  {
    assert ([e] + rest)[1..] == rest;
  }

  lemma {:induction false} EntriesAreLongest(d: Bytes, off: nat, es: seq<Entry>)
    requires off <= |d|
    ensures EncodeEntries(es) <= d[off..] <==> es <= Entries(d, off)
    decreases |es|
  {
    if es == [] {
    } else {
      var e, rest := es[0], es[1..];
      assert es == [e] + rest;
      EncodeEntriesCons(e, rest);
      if EncodeEntries(es) <= d[off..] {
        FirstEntry(d, off, e, rest);
      }
      hide EncodeEntries, EncodeEntry, EntryAt, Next, Complete;
      if EntryComplete(d, off) {
        var next := Next(d, off + SCORE_SIZE);
        EntriesStep(d, off);
        EntriesAreLongest(d, next, rest);
        hide Entries;
        SharedHead([e], rest, Entries(d, next));
        SharedHead(EncodeEntry(e), EncodeEntries(rest), d[next..]);
      }
    }
  }

  lemma FirstEntry(d: Bytes, off: nat, e: Entry, rest: seq<Entry>)
    requires off <= |d| && EncodeEntry(e) + EncodeEntries(rest) <= d[off..]
    ensures EntryComplete(d, off) && EntryAt(d, off) == e
    ensures EncodeEntries(rest) <= d[Next(d, off + SCORE_SIZE)..]
  {
    var n := off + |EncodeEntry(e)|;
    CutPrefix(d, off, EncodeEntry(e), EncodeEntries(rest));
    EntryReads(d[..off], e, d[n..]);
  }

  lemma EntryBytes(d: Bytes, off: nat)
    requires EntryComplete(d, off)
    ensures d[off..Next(d, off + SCORE_SIZE)] == EncodeEntry(EntryAt(d, off))
  {
    var score := d[off..off + SCORE_SIZE];
    LEOfUnLE(score);
    RecordBytes(d, off + SCORE_SIZE);
    hide EncodeItem, ItemAt;
    assert d[off..Next(d, off + SCORE_SIZE)] == score + d[off + SCORE_SIZE..Next(d, off + SCORE_SIZE)];
  }

  /** As many entries as the count allows, or all that can be read if they are fewer. */
  ghost predicate SeenZ(d: Bytes, es: seq<Entry>) {
    var n := if |d| < HEADER_SIZE || Count(d) < 0 then 0 else Count(d);
    && BeginsZ(d, es) && |es| <= n
    && (|es| == n || forall e :: !BeginsZ(d, es + [e]))
  }

  lemma SeenIsCounted(d: Bytes, es: seq<Entry>)
    requires SeenZ(d, es)
    ensures es == Counted(Count(d), Entries(d, HEADER_SIZE))
  {
    var all := Entries(d, HEADER_SIZE);
    EntriesAreLongest(d, HEADER_SIZE, es);
    assert es == all[..|es|];
    if |es| < |all| {
      var e := OneMore(d, es);
    }
  }

  lemma OneMore(d: Bytes, es: seq<Entry>) returns (e: Entry)
    requires |d| >= HEADER_SIZE && es <= Entries(d, HEADER_SIZE) && |es| < |Entries(d, HEADER_SIZE)|
    ensures BeginsZ(d, es + [e])
  {
    var all := Entries(d, HEADER_SIZE);
    e := all[|es|];
    assert es + [e] <= all;
    EntriesAreLongest(d, HEADER_SIZE, es + [e]);
  }

  /** Where the last entry for `k` is, or -1. */
  function LastIndex(es: seq<Entry>, k: Item): (i: int)
    ensures -1 <= i < |es| && (i >= 0 ==> es[i].member == k)
    ensures forall j :: i < j < |es| ==> es[j].member != k
    decreases |es|
  {
    if es == [] then -1
    else if es[|es| - 1].member == k then |es| - 1
    else LastIndex(es[..|es| - 1], k)
  }

  /** ZADD starts from those entries, the last one for a member counting. */
  lemma DecodedExactly(d: Bytes, es: seq<Entry>, k: Item)
    requires SeenZ(d, es)
    ensures k in Decoded(Some(d)) <==> exists i :: 0 <= i < |es| && es[i].member == k
    ensures k in Decoded(Some(d)) ==>
              exists i ::
                && 0 <= i < |es| && es[i] == Entry(Decoded(Some(d))[k], k)
                && forall j :: i < j < |es| ==> es[j].member != k
  {
    SeenIsCounted(d, es);
    LastOneWins(es, k);
    var i := LastIndex(es, k);
    assert i >= 0 ==> es[i] == Entry(Decoded(Some(d))[k], k);
  }

  lemma {:induction false} LastOneWins(es: seq<Entry>, k: Item)
    ensures k in MapOf(es) <==> LastIndex(es, k) >= 0
    ensures k in MapOf(es) ==> MapOf(es)[k] == es[LastIndex(es, k)].score
    decreases |es|
  {
    if es == [] {
    } else {
      LastOneWins(es[..|es| - 1], k);
    }
  }

  function Hits(es: seq<Entry>, min: uint64, max: uint64): set<nat> {
    set i: nat | i < |es| && SortedSetRuns.Between(es[i].score, min, max) && !IsNaN(es[i].score)
  }

  /** ZCOUNT counts the entries among them whose scores lie between the bounds, by position. */
  lemma ZCountExactly(d: Bytes, es: seq<Entry>, min: uint64, max: uint64)
    requires SeenZ(d, es)
    ensures ZCountBytes(Some(d), min, max) == |Hits(es, min, max)|
  {
    SeenIsCounted(d, es);
    CountsHits(es, min, max);
  }

  lemma HitsSnoc(es: seq<Entry>, e: Entry, min: uint64, max: uint64)
    ensures |Hits(es + [e], min, max)|
         == |Hits(es, min, max)|
            + if SortedSetRuns.Between(e.score, min, max) && !IsNaN(e.score) then 1 else 0
  {
    hide SortedSetRuns.Between, IsNaN;
    var hit := SortedSetRuns.Between(e.score, min, max) && !IsNaN(e.score);
    assert |es| !in Hits(es, min, max);
    assert Hits(es + [e], min, max) == Hits(es, min, max) + if hit then {|es|} else {};
  }

  lemma {:induction false} CountsHits(es: seq<Entry>, min: uint64, max: uint64)
    ensures CountIn(es, min, max) == |Hits(es, min, max)|
    decreases |es|
  {
    hide ScoreOrder.Numeric, InRange, IsNaN;
    if es == [] {
      assert Hits(es, min, max) == {};
    } else {
      var n := |es| - 1;
      assert es == es[..n] + [es[n]];
      CountsHits(es[..n], min, max);
      ScoreOrder.RangeIsNumeric(es[n].score, min, max);
      HitsSnoc(es[..n], es[n], min, max);
    }
  }

  /** With as many entries as the count says, ZRANGE is a slice of their members, whatever follows. */
  lemma ZRangeReads(d: Bytes, es: seq<Entry>, a: int64, b: int64)
    requires BeginsZ(d, es) && |es| == Count(d)
    ensures ZRangeBytes(Some(d), a, b) == MembersOf(ListRuns.Slice(es, a, b))
  {
    EntriesAreLongest(d, HEADER_SIZE, es);
    var all := Entries(d, HEADER_SIZE);
    if es != [] {
      SortedSetRuns.WindowIsSlice(es, a, b);
      var (first, last) := Lists.Window(a, b, |es|);
      if first <= last {
        SameSlice(es, all, first, last);
      }
      hide ListRuns.Slice, Entries, MembersOf, Lists.Window, EncodeEntries;
    }
  }

  lemma SameSlice<T>(xs: seq<T>, all: seq<T>, first: nat, last: nat)
    requires xs <= all && first <= last < |xs|
    ensures all[first..last + 1] == xs[first..last + 1]
    ensures last + 1 == |all| ==> all[first..] == all[first..last + 1]
  {
    assert forall i :: 0 <= i < |xs| ==> xs[i] == all[i];
  }
}
