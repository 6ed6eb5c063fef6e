/**
 Values carry no type tag, and the list commands accept whatever passes their validator. A
 sorted set passes when its scores happen to look like the length fields of list records.
 */
module SortedSetAsList {
  import opened Bytes
  import opened Codec
  import opened Scores
  import opened SortedSets
  import Lists
  import ListRuns

  /** The low half of the score is the number of bytes that follow it in the record. */
  predicate Aligned(e: Entry) {
    e.score % 0x1_0000_0000 == 8 + |e.member|
  }

  predicate AllAligned(es: seq<Entry>) {
    forall i :: 0 <= i < |es| ==> Aligned(es[i])
  }

  /** The item that a list command takes an aligned entry for. */
  function Misread(e: Entry): (v: Item)
    requires Aligned(e)
    ensures |v| == 8 + |e.member|
  {
    LE(e.score / 0x1_0000_0000, 4) + EncodeItem(e.member)
  }

  function MisreadAll(es: seq<Entry>): (xs: seq<Item>)
    requires AllAligned(es)
    ensures |xs| == |es|
  {
    if es == [] then [] else [Misread(es[0])] + MisreadAll(es[1..])
  }

  lemma UnLECons(x: byte, rest: Bytes)
    ensures UnLE([x] + rest) == x + 256 * UnLE(rest)
  {
    assert ([x] + rest)[1..] == rest;
  }

  lemma UnLEWord(a: Bytes, b: Bytes)
    requires |a| == 4
    ensures UnLE(a + b) == UnLE(a) + 0x1_0000_0000 * UnLE(b)
  {
    UnLECons(a[3], b);
    UnLECons(a[2], [a[3]] + b);
    UnLECons(a[1], [a[2]] + ([a[3]] + b));
    UnLECons(a[0], [a[1]] + ([a[2]] + ([a[3]] + b)));
    assert a + b == [a[0]] + ([a[1]] + ([a[2]] + ([a[3]] + b)));
    UnLECons(a[3], []);
    UnLECons(a[2], [a[3]]);
    UnLECons(a[1], [a[2], a[3]]);
    UnLECons(a[0], [a[1], a[2], a[3]]);
    assert [a[3]] + [] == [a[3]] && [a[2]] + [a[3]] == [a[2], a[3]];
    assert [a[1]] + [a[2], a[3]] == [a[1], a[2], a[3]] && [a[0]] + [a[1], a[2], a[3]] == a;
  }

  /** A 64-bit word is its low half followed by its high half. */
  lemma Halves(n: uint64)
    ensures LE(n, 8) == LE(n % 0x1_0000_0000, 4) + LE(n / 0x1_0000_0000, 4)
  {
    hide LE, UnLE;
    Pow256Words();
    var b := LE(n, 8);
    var low, high := b[..4], b[4..];
    assert b == low + high;
    UnLEOfLE(n, 8);
    UnLEWord(low, high);
    LEOfUnLE(low);
    LEOfUnLE(high);
    assert n == UnLE(low) + 0x1_0000_0000 * UnLE(high);
    assert UnLE(low) == n % 0x1_0000_0000 && UnLE(high) == n / 0x1_0000_0000;
  }

  lemma EntryAsRecord(e: Entry)
    requires Aligned(e)
    ensures EncodeEntry(e) == EncodeItem(Misread(e))
  {
    hide LE;
    Halves(e.score);
  }

  lemma {:induction false} EntriesAsRecords(es: seq<Entry>)
    requires AllAligned(es)
    ensures EncodeEntries(es) == EncodeItems(MisreadAll(es))
  {
    if es == [] {
    } else {
      hide EncodeEntry, EncodeItem, Aligned, Misread;
      EntryAsRecord(es[0]);
      EntriesAsRecords(es[1..]);
      assert MisreadAll(es)[1..] == MisreadAll(es[1..]);
    }
  }

  /** A sorted set of aligned entries passes for a list. */
  lemma AlignedIsList(es: seq<Entry>)
    requires AllAligned(es) && Fits(es)
    ensures IsListData(EncodeZ(es)) && Items(EncodeZ(es), HEADER_SIZE) == MisreadAll(es)
  {
    EntriesAsRecords(es);
    assert EncodeZ(es) == Encode(MisreadAll(es));
    DecodeOfEncode(MisreadAll(es));
  }

  /** LPUSH then adds to that list, and what is stored is a list for good. */
  lemma PushedOnAligned(es: seq<Entry>, values: seq<Item>)
    requires AllAligned(es) && values != [] && |es| + |values| < TWO_63
    ensures ListRuns.ByteStep(Some(EncodeZ(es)), ListRuns.PushLeft(values))
         == (ListRuns.Stored(Lists.Reverse(values) + MisreadAll(es)), ListRuns.Number(|values| + |es|))
  {
    hide ListRuns.ByteStep, EncodeZ, Aligned, MisreadAll, IsListData, Items, ListRuns.Stored, Lists.Reverse;
    AlignedIsList(es);
    ListRuns.PushBytes(Some(EncodeZ(es)), MisreadAll(es), values);
  }

  lemma RecordLength(v: Item, n: nat, rest: Bytes)
    requires n < TWO_32 && EncodeItem(v) == LE(n, 4) + rest
    ensures n == |v| == |rest|
  {
    Pow256Words();
    UnLEOfLE(n, 4);
    UnLEOfLE(|v|, 4);
    assert EncodeItem(v)[..4] == LE(|v|, 4);
    assert (LE(n, 4) + rest)[..4] == LE(n, 4);
  }

  /** One entry passes for a list exactly when it is aligned; LPUSH refuses every other one. */
  lemma SingleIsListExactly(e: Entry, values: seq<Item>)
    requires values != [] && |values| + 1 < TWO_63
    ensures IsListData(EncodeZ([e])) <==> Aligned(e)
    ensures !Aligned(e) <==>
              ListRuns.ByteStep(Some(EncodeZ([e])), ListRuns.PushLeft(values))
              == (Some(EncodeZ([e])), ListRuns.Number(0))
  {
    hide LE, UnLE;
    var d := EncodeZ([e]);
    if Aligned(e) {
      AlignedIsList([e]);
      PushedOnAligned([e], values);
    } else if IsListData(d) {
      ListDataIsEncoding(d);
      var xs := Items(d, HEADER_SIZE);
      HeaderReads(1, EncodeEntries([e]));
      assert |xs| == 1;
      assert EncodeEntries([e]) == EncodeEntry(e) && EncodeItems(xs) == EncodeItem(xs[0]);
      assert d[HEADER_SIZE..] == EncodeEntry(e) == EncodeItem(xs[0]);
      Halves(e.score);
      var rest := LE(e.score / 0x1_0000_0000, 4) + EncodeItem(e.member);
      assert EncodeEntry(e) == LE(e.score % 0x1_0000_0000, 4) + rest;
      RecordLength(xs[0], e.score % 0x1_0000_0000, rest);
      assert false;
    }
  }

  /** ZADD of a first member leaves list data exactly when score and member are aligned. */
  lemma FirstMemberIsList(score: uint64, member: Item, v: Value, added: int)
    requires member != [] && ZAddOutcome(None, score, member, v, added)
    ensures v.Some? && (IsListData(v.value) <==> Aligned(Entry(score, member)))
  {
    var m: Scored := map[member := score];
    assert Decoded(None)[member := score] == m;
    var es :| Represents(es, m) && v.value == EncodeZ(es);
    MapOfDistinct(es, m);
    assert |m| == 1;
    assert es[0] in es && es == [Entry(score, member)];
    SingleIsListExactly(es[0], [[]]);
  }

  /** Such an input: member "a" with the subnormal score whose bit pattern is 9. */
  lemma SubnormalScoreIsList(v: Value, added: int)
    requires ZAddOutcome(None, 9, [97], v, added)
    ensures v.Some? && IsListData(v.value)
  {
    FirstMemberIsList(9, [97], v, added);
    assert Aligned(Entry(9, [97]));
  }
}
