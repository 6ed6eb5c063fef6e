/**
 The sorted-set commands. A sorted set is a count followed by records
 `score64 | len32 | bytes`, kept in score order by re-sorting on every ZADD.
 */
module SortedSets {
  import opened Bytes
  import opened Codec
  import opened Scores
  import Lists
  import Sets

  const SCORE_SIZE: nat := 8

  // ----- the record format -----

  function EncodeEntry(e: Entry): Bytes {
    LE(e.score, SCORE_SIZE) + EncodeItem(e.member)
  }

  function EncodeEntries(es: seq<Entry>): Bytes {
    if es == [] then [] else EncodeEntry(es[0]) + EncodeEntries(es[1..])
  }

  function EncodeZ(es: seq<Entry>): Bytes {
    Header(|es|) + EncodeEntries(es)
  }

  predicate EntryComplete(data: Bytes, off: nat) {
    off + SCORE_SIZE <= |data| && Complete(data, off + SCORE_SIZE)
  }

  function EntryAt(data: Bytes, off: nat): Entry
    requires EntryComplete(data, off)
  {
    Entry(Word64(data[off..off + SCORE_SIZE]), ItemAt(data, off + SCORE_SIZE))
  }

  /** The complete records from `off` on, up to the first one that is cut short. */
  function Entries(data: Bytes, off: nat): seq<Entry>
    decreases |data| - off
  {
    if EntryComplete(data, off)
    then [EntryAt(data, off)] + Entries(data, Next(data, off + SCORE_SIZE))
    else []
  }

  lemma EntryReads(pre: Bytes, e: Entry, post: Bytes)
    ensures var data := pre + EncodeEntry(e) + post;
            && EntryComplete(data, |pre|)
            && EntryAt(data, |pre|) == e
            && Next(data, |pre| + SCORE_SIZE) == |pre| + |EncodeEntry(e)|
  {
    var data := pre + EncodeEntry(e) + post;
    var pre' := pre + LE(e.score, SCORE_SIZE);
    assert data == pre' + EncodeItem(e.member) + post;
    RecordReads(pre', e.member, post);
    assert data[|pre|..|pre| + SCORE_SIZE] == LE(e.score, SCORE_SIZE);
    Pow256Words();
    UnLEOfLE(e.score, SCORE_SIZE);
  }

  lemma {:induction false} EntriesOfEncoded(pre: Bytes, es: seq<Entry>)
    ensures Entries(pre + EncodeEntries(es), |pre|) == es
    decreases |es|
  {
    var data := pre + EncodeEntries(es);
    if es == [] {
    } else {
      var head := pre + EncodeEntry(es[0]);
      assert data == head + EncodeEntries(es[1..]);
      EntryReads(pre, es[0], EncodeEntries(es[1..]));
      EntriesOfEncoded(head, es[1..]);
    }
  }

  lemma {:induction false} EncodeEntriesSnoc(es: seq<Entry>, e: Entry)
    ensures EncodeEntries(es + [e]) == EncodeEntries(es) + EncodeEntry(e)
  {
    if es == [] {
      assert EncodeEntries([e]) == EncodeEntry(e);
    } else {
      assert (es + [e])[1..] == es[1..] + [e];
      EncodeEntriesSnoc(es[1..], e);
    }
  }

  lemma DecodeOfEncodeZ(es: seq<Entry>)
    requires Fits(es)
    ensures Entries(EncodeZ(es), HEADER_SIZE) == es
    ensures Count(EncodeZ(es)) == |es|
  {
    HeaderReads(|es|, EncodeEntries(es));
    EntriesOfEncoded(Header(|es|), es);
  }

  // ----- entries as a map from members to scores -----

  type Scored = map<Item, uint64>

  /** What inserting the entries one after the other into a map leaves: the last one wins. */
  function MapOf(es: seq<Entry>): Scored {
    if es == [] then map[]
    else var e := es[|es| - 1]; MapOf(es[..|es| - 1])[e.member := e.score]
  }

  function Decoded(v: Value): Scored {
    if v.None? || |v.value| < HEADER_SIZE then map[]
    else MapOf(Counted(Count(v.value), Entries(v.value, HEADER_SIZE)))
  }

  ghost predicate NaNFreeMap(m: Scored) {
    forall k :: k in m ==> !IsNaN(m[k])
  }

  /** The entries of `m`, each once; in score order whenever there is one. */
  ghost predicate Represents(es: seq<Entry>, m: Scored) {
    && DistinctMembers(es)
    && (forall e :: e in es <==> e.member in m && m[e.member] == e.score)
    && (NaNFreeMap(m) ==> Sorted(es))
  }

  lemma KeyHasEntry(es: seq<Entry>, m: Scored, k: Item)
    requires forall e :: e in es <==> e.member in m && m[e.member] == e.score
    requires k in m
    ensures Entry(m[k], k) in es
  {
  }

  lemma {:induction false} MapOfDistinct(es: seq<Entry>, m: Scored)
    requires DistinctMembers(es)
    requires forall e :: e in es <==> e.member in m && m[e.member] == e.score
    ensures MapOf(es) == m && |es| == |m|
    decreases |es|
  {
    if es == [] {
      if m != map[] {
        var k :| k in m;
        KeyHasEntry(es, m, k);
        assert false;
      }
    } else {
      var n := |es| - 1;
      var rest, last := es[..n], es[n];
      var m' := m - {last.member};
      assert es == rest + [last];
      assert last in es;
      forall e: Entry ensures e in rest <==> e.member in m' && m'[e.member] == e.score {
        if e in rest {
          assert e in es && e.member != last.member;
        }
        if e.member in m' && m'[e.member] == e.score {
          assert e in es && e != last;
        }
      }
      MapOfDistinct(rest, m');
      assert m == m'[last.member := last.score];
    }
  }

  /** The canonical form: without NaN, a map has at most one representation. */
  lemma RepresentationUnique(es: seq<Entry>, fs: seq<Entry>, m: Scored)
    requires Represents(es, m) && Represents(fs, m) && NaNFreeMap(m)
    ensures es == fs
  {
    SortedUnique(es, fs);
  }

  // ----- what the commands do to the bytes under a key -----

  /** `data` is the encoding of a representation of `m`. */
  ghost predicate Writes(data: Bytes, m: Scored) {
    exists es :: Represents(es, m) && data == EncodeZ(es)
  }

  ghost predicate ZAddOutcome(v: Value, score: uint64, member: Item, v': Value, added: int) {
    if member == [] then v' == v && added == 0
    else
      var before := Decoded(v);
      && v'.Some? && Writes(v'.value, before[member := score])
      && added == if member in before then 0 else 1
  }

  function MembersOf(es: seq<Entry>): (r: seq<Item>)
    ensures |r| == |es|
  {
    seq(|es|, i requires 0 <= i < |es| => es[i].member)
  }

  /** ZRANGE never fails: damage ends the reply early. */
  function ZRangeBytes(v: Value, start: int64, stop: int64): seq<Item> {
    if v.None? || |v.value| < HEADER_SIZE || Count(v.value) <= 0 then []
    else
      var es := Entries(v.value, HEADER_SIZE);
      var (first, last) := Lists.Window(start, stop, Count(v.value));
      if last < first || |es| <= first then []
      else MembersOf(if last < |es| then es[first..last + 1] else es[first..])
  }

  function CountIn(es: seq<Entry>, min: uint64, max: uint64): nat {
    if es == [] then 0
    else (if InRange(es[|es| - 1].score, min, max) then 1 else 0) + CountIn(es[..|es| - 1], min, max)
  }

  function ZCountBytes(v: Value, min: uint64, max: uint64): nat {
    if v.None? || |v.value| < HEADER_SIZE then 0
    else CountIn(Counted(Count(v.value), Entries(v.value, HEADER_SIZE)), min, max)
  }

  // ----- the transactions -----

  method ZAdd(v: Value, score: uint64, member: Item) returns (newData: Bytes, added: int)
    requires member != []
    ensures ZAddOutcome(v, score, member, Some(newData), added)
  {
    var existing: Scored := map[];
    if v.Some? && |v.value| >= HEADER_SIZE {
      existing := DecodeScored(v.value);
    }
    added := if member !in existing then 1 else 0;
    existing := existing[member := score];
    var listed := ListEntries(existing);
    var sorted := SortEntries(listed);
    SortedListing(listed, sorted, existing);
    newData := WriteEntries(sorted);
  }

  /** The decoding loop of ZADD; a later record for the same member overrides an earlier one. */
  method DecodeScored(data: Bytes) returns (existing: Scored)
    requires |data| >= HEADER_SIZE
    ensures existing == Decoded(Some(data))
  {
    hide LE, UnLE;
    existing := map[];
    var count: int := Count(data);
    var offset: nat := HEADER_SIZE;
    ghost var es := Entries(data, HEADER_SIZE);
    var i := 0;
    while i < count
      invariant 0 <= i <= |es| && (i <= count || i == 0)
      invariant es[i..] == Entries(data, offset)
      invariant existing == MapOf(es[..i])
    {
      if offset + SCORE_SIZE > |data| {
        break;
      }
      var memberScore := Word64(data[offset..offset + SCORE_SIZE]);
      offset := offset + SCORE_SIZE;
      if offset + LENGTH_SIZE > |data| {
        break;
      }
      var memberLen := LengthAt(data, offset);
      ghost var next := Next(data, offset);
      offset := offset + LENGTH_SIZE;
      if offset + memberLen > |data| {
        break;
      }
      var member: Item := data[offset..offset + memberLen];
      existing := existing[member := memberScore];
      offset := offset + memberLen;
      assert offset == next;
      ReadEntry(es, i);
      i := i + 1;
    }
    Sets.CountedIsPrefix(count, es, i);
  }

  lemma ReadEntry(es: seq<Entry>, i: nat)
    requires i < |es|
    ensures es[i..][0] == es[i] && es[i..][1..] == es[i + 1..]
    ensures MapOf(es[..i + 1]) == MapOf(es[..i])[es[i].member := es[i].score]
  {
    assert es[..i + 1][..i] == es[..i];
  }

  /** Map iteration: the entries in any order. */
  method ListEntries(m: Scored) returns (es: seq<Entry>)
    ensures DistinctMembers(es)
    ensures forall e :: e in es <==> e.member in m && m[e.member] == e.score
  {
    es := [];
    var remaining := m.Keys;
    while remaining != {}
      invariant remaining <= m.Keys && DistinctMembers(es)
      invariant forall e :: e in es <==> e.member in m && e.member !in remaining && m[e.member] == e.score
      decreases |remaining|
    {
      var k :| k in remaining;
      es := es + [Entry(m[k], k)];
      remaining := remaining - {k};
    }
  }

  /**
   The sort. With NaN scores the comparison is no order and the result is only a
   rearrangement; otherwise it is sorted.
   */
  method SortEntries(es: seq<Entry>) returns (r: seq<Entry>)
    ensures multiset(r) == multiset(es)
    ensures NaNFree(es) && DistinctMembers(es) ==> Sorted(r)
  {
    r := [];
    for i := 0 to |es|
      invariant multiset(r) == multiset(es[..i])
      invariant NaNFree(es) && DistinctMembers(es) ==> Sorted(r)
    {
      assert es[..i + 1] == es[..i] + [es[i]];
      if NaNFree(es) && DistinctMembers(es) {
        forall e | e in r ensures !IsNaN(e.score) && e.member != es[i].member {
          assert e in multiset(r) && e in es[..i];
        }
      }
      r := InsertSorted(r, es[i]);
    }
    assert es[..|es|] == es;
  }

  method InsertSorted(s: seq<Entry>, x: Entry) returns (r: seq<Entry>)
    ensures multiset(r) == multiset(s) + multiset{x}
    ensures Sorted(s) && NaNFree(s) && !IsNaN(x.score) && (forall e :: e in s ==> e.member != x.member)
            ==> Sorted(r)
  {
    var j := |s|;
    while j > 0 && EntryLess(x, s[j - 1])
      invariant 0 <= j <= |s|
      invariant forall k :: j <= k < |s| ==> EntryLess(x, s[k])
    {
      j := j - 1;
    }
    r := s[..j] + [x] + s[j..];
    assert s == s[..j] + s[j..];
    if Sorted(s) && NaNFree(s) && !IsNaN(x.score) && forall e :: e in s ==> e.member != x.member {
      InsertKeepsSorted(s, x, j);
    }
  }

  lemma InsertKeepsSorted(s: seq<Entry>, x: Entry, j: nat)
    requires j <= |s| && Sorted(s) && NaNFree(s) && !IsNaN(x.score)
    requires forall e :: e in s ==> e.member != x.member
    requires forall k :: j <= k < |s| ==> EntryLess(x, s[k])
    requires j > 0 ==> !EntryLess(x, s[j - 1])
    ensures Sorted(s[..j] + [x] + s[j..])
  {
    forall k | 0 <= k < j ensures EntryLess(s[k], x) {
      EntryOrder(s[j - 1], x, x);
      EntryOrder(s[k], s[j - 1], x);
    }
  }

  lemma SortedListing(listed: seq<Entry>, sorted: seq<Entry>, m: Scored)
    requires DistinctMembers(listed)
    requires forall e :: e in listed <==> e.member in m && m[e.member] == e.score
    requires multiset(sorted) == multiset(listed)
    requires NaNFree(listed) && DistinctMembers(listed) ==> Sorted(sorted)
    ensures Represents(sorted, m)
  {
    forall e: Entry ensures e in sorted <==> e in listed {
      assert e in sorted <==> e in multiset(sorted);
      assert e in listed <==> e in multiset(listed);
    }
    forall i, j | 0 <= i < j < |sorted| ensures sorted[i].member != sorted[j].member {
      if sorted[i].member == sorted[j].member {
        assert sorted[i] in listed && sorted[j] in listed;
        assert sorted[i] == sorted[j];
        TwiceInMultiset(sorted, i, j);
        OnceInDistinct(listed, sorted[i]);
      }
    }
  }

  lemma TwiceInMultiset(es: seq<Entry>, i: nat, j: nat)
    requires i < j < |es| && es[i] == es[j]
    ensures multiset(es)[es[i]] >= 2
  {
    assert es == es[..i] + [es[i]] + es[i + 1..j] + [es[j]] + es[j + 1..];
  }

  lemma {:induction false} OnceInDistinct(es: seq<Entry>, e: Entry)
    requires DistinctMembers(es)
    ensures multiset(es)[e] <= 1
  {
    if es == [] {
    } else {
      var n := |es| - 1;
      assert es == es[..n] + [es[n]];
      OnceInDistinct(es[..n], e);
      if e == es[n] {
        assert e !in es[..n];
      }
    }
  }

  /** The re-encoding loop of ZADD. */
  method WriteEntries(es: seq<Entry>) returns (newData: Bytes)
    ensures newData == EncodeZ(es)
  {
    hide LE, UnLE;
    newData := Header(|es|);
    for i := 0 to |es|
      invariant newData == Header(|es|) + EncodeEntries(es[..i])
    {
      newData := newData + LE(es[i].score, SCORE_SIZE);
      newData := newData + LE(|es[i].member|, LENGTH_SIZE);
      newData := newData + es[i].member;
      EncodeEntriesSnoc(es[..i], es[i]);
      assert es[..i + 1] == es[..i] + [es[i]];
    }
    assert es[..|es|] == es;
  }

  method ZRange(data: Bytes, start: int64, stop: int64) returns (result: seq<Item>)
    ensures result == ZRangeBytes(Some(data), start, stop)
  {
    hide LE, UnLE, Lists.Window, Lists.Between, MembersOf, MapOf;
    if |data| < HEADER_SIZE {
      return [];
    }
    var count: int := Count(data);
    if count == 0 {
      return [];
    }
    var first, last := Lists.ClampWindow(start, stop, count);
    if first > last {
      return [];
    }
    ghost var es := Entries(data, HEADER_SIZE);
    result := [];
    NothingSelected(es, first, last);
    var offset: nat := HEADER_SIZE;
    var i := 0;
    while i < count
      invariant 0 <= i <= |es| && (i <= count || i == 0)
      invariant es[i..] == Entries(data, offset)
      invariant result == MembersOf(Lists.Between(es, first, last, i))
    {
      if offset + SCORE_SIZE > |data| {
        break;
      }
      offset := offset + SCORE_SIZE;
      if offset + LENGTH_SIZE > |data| {
        break;
      }
      var memberLen := LengthAt(data, offset);
      ghost var next := Next(data, offset);
      offset := offset + LENGTH_SIZE;
      if offset + memberLen > |data| {
        break;
      }
      ReadEntry(es, i);
      MembersStep(es, first, last, i);
      if first <= i <= last {
        var member: Item := data[offset..offset + memberLen];
        result := result + [member];
      }
      offset := offset + memberLen;
      assert offset == next;
      i := i + 1;
    }
    if count > 0 {
      SelectionDone(es, first, last, i);
    }
  }

  lemma NothingSelected(es: seq<Entry>, first: nat, last: int)
    ensures MembersOf(Lists.Between(es, first, last, 0)) == []
  {
  }

  lemma MembersStep(es: seq<Entry>, first: nat, last: int, i: nat)
    requires i < |es|
    ensures MembersOf(Lists.Between(es, first, last, i + 1))
         == MembersOf(Lists.Between(es, first, last, i)) + if first <= i <= last then [es[i].member] else []
  {
    Lists.BetweenStep(es, first, last, i);
  }

  /** A scan of the records up to `i` that has covered the range, or all there is of it. */
  lemma SelectionDone(es: seq<Entry>, first: nat, last: int, i: nat)
    requires first <= last && i <= |es| && (i > last || i == |es|)
    ensures MembersOf(Lists.Between(es, first, last, i))
         == if |es| <= first then [] else MembersOf(if last < |es| then es[first..last + 1] else es[first..])
  {
  }

  method ZCount(data: Bytes, min: uint64, max: uint64) returns (found: int)
    ensures found == ZCountBytes(Some(data), min, max)
  {
    hide LE, UnLE;
    if |data| < HEADER_SIZE {
      return 0;
    }
    var totalCount: int := Count(data);
    if totalCount == 0 {
      return 0;
    }
    ghost var es := Entries(data, HEADER_SIZE);
    found := 0;
    var offset: nat := HEADER_SIZE;
    var i := 0;
    while i < totalCount
      invariant 0 <= i <= |es| && (i <= totalCount || i == 0)
      invariant es[i..] == Entries(data, offset)
      invariant found == CountIn(es[..i], min, max)
    {
      if offset + SCORE_SIZE > |data| {
        break;
      }
      var score := Word64(data[offset..offset + SCORE_SIZE]);
      offset := offset + SCORE_SIZE;
      if offset + LENGTH_SIZE > |data| {
        break;
      }
      var memberLen := LengthAt(data, offset);
      ghost var next := Next(data, offset);
      offset := offset + LENGTH_SIZE;
      if offset + memberLen > |data| {
        break;
      }
      if InRange(score, min, max) {
        found := found + 1;
      }
      ReadEntry(es, i);
      assert es[..i + 1][..i] == es[..i];
      offset := offset + memberLen;
      assert offset == next;
      i := i + 1;
    }
    Sets.CountedIsPrefix(totalCount, es, i);
  }
}
