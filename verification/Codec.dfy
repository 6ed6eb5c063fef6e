/**
 The byte layout shared by lists and sets: an 8-byte count followed by records
 `len32 | bytes`. `Items` reads, on any byte string at all, the records that are
 complete; every command of the storage layer is specified against it.
 */
module Codec {
  import opened Bytes

  /** What a key holds: nothing, or a byte string. */
  type Value = Option<Bytes>

  const HEADER_SIZE: nat := 8
  const LENGTH_SIZE: nat := 4

  function Header(count: int): (b: Bytes)
    ensures |b| == HEADER_SIZE
  {
    LE(count % 0x1_0000_0000_0000_0000, HEADER_SIZE)
  }

  function EncodeItem(v: Item): (b: Bytes)
    ensures |b| == LENGTH_SIZE + |v|
  {
    LE(|v|, LENGTH_SIZE) + v
  }

  function EncodeItems(xs: seq<Item>): Bytes {
    if xs == [] then [] else EncodeItem(xs[0]) + EncodeItems(xs[1..])
  }

  function Encode(xs: seq<Item>): Bytes {
    Header(|xs|) + EncodeItems(xs)
  }

  /** A count that the signed 64-bit header can hold. */
  predicate Fits<T>(xs: seq<T>) {
    |xs| < TWO_63
  }

  function Word64(b: Bytes): uint64
    requires |b| == 8
  {
    LEOfUnLE(b);
    Pow256Words();
    UnLE(b)
  }

  function Word32(b: Bytes): uint32
    requires |b| == 4
  {
    LEOfUnLE(b);
    Pow256Words();
    UnLE(b)
  }

  function Count(data: Bytes): int64
    requires |data| >= HEADER_SIZE
  {
    Signed64(Word64(data[..HEADER_SIZE]))
  }

  function LengthAt(data: Bytes, off: nat): uint32
    requires off + LENGTH_SIZE <= |data|
  {
    Word32(data[off..off + LENGTH_SIZE])
  }

  /** A whole record starts at `off`. */
  predicate Complete(data: Bytes, off: nat) {
    off + LENGTH_SIZE <= |data| && off + LENGTH_SIZE + LengthAt(data, off) <= |data|
  }

  function ItemAt(data: Bytes, off: nat): Item
    requires Complete(data, off)
  {
    data[off + LENGTH_SIZE..off + LENGTH_SIZE + LengthAt(data, off)]
  }

  function Next(data: Bytes, off: nat): nat
    requires off + LENGTH_SIZE <= |data|
  {
    off + LENGTH_SIZE + LengthAt(data, off)
  }

  /** The complete records from `off` on, up to the first one that is cut short. */
  function Items(data: Bytes, off: nat): seq<Item>
    decreases |data| - off
  {
    if Complete(data, off) then [ItemAt(data, off)] + Items(data, Next(data, off)) else []
  }

  /** Where `Items` stops: the offset of the first byte that is in no complete record. */
  function Stop(data: Bytes, off: nat): (end: nat)
    ensures off <= end && (off <= |data| ==> end <= |data|)
    decreases |data| - off
  {
    if Complete(data, off) then Stop(data, Next(data, off)) else off
  }

  /** What a reader that trusts the count sees: at most `Count` of the complete records. */
  function Counted<T>(count: int, items: seq<T>): (r: seq<T>) {
    if count <= 0 then [] else if count <= |items| then items[..count] else items
  }

  /** The format predicate of the list commands: exactly `Count` records and nothing else. */
  predicate IsListData(data: Bytes) {
    && |data| >= HEADER_SIZE
    && |Items(data, HEADER_SIZE)| == Count(data)
    && Stop(data, HEADER_SIZE) == |data|
  }

  // ----- encoding then reading -----

  lemma HeaderReads(count: int, body: Bytes)
    ensures Count(Header(count) + body) == Wrap64(count)
  {
    Pow256Words();
    UnLEOfLE(count % 0x1_0000_0000_0000_0000, HEADER_SIZE);
    assert (Header(count) + body)[..HEADER_SIZE] == Header(count);
  }

  /** The header holds the count modulo 2^64. */
  lemma HeaderOfWrapped(n: int)
    ensures Header(Wrap64(n)) == Header(n)
  {
    assert Wrap64(n) % 0x1_0000_0000_0000_0000 == n % 0x1_0000_0000_0000_0000;
  }

  lemma HeaderOfCount(data: Bytes)
    requires |data| >= HEADER_SIZE
    ensures Header(Count(data)) == data[..HEADER_SIZE]
  {
    var w := Word64(data[..HEADER_SIZE]);
    assert Count(data) % 0x1_0000_0000_0000_0000 == w;
    LEOfUnLE(data[..HEADER_SIZE]);
  }

  /** A record written at `off` is read back there, whatever surrounds it. */
  lemma RecordReads(pre: Bytes, v: Item, post: Bytes)
    ensures var data := pre + EncodeItem(v) + post;
            && Complete(data, |pre|)
            && ItemAt(data, |pre|) == v
            && Next(data, |pre|) == |pre| + LENGTH_SIZE + |v|
  {
    var data := pre + EncodeItem(v) + post;
    Pow256Words();
    UnLEOfLE(|v|, LENGTH_SIZE);
    assert data[|pre|..|pre| + LENGTH_SIZE] == LE(|v|, LENGTH_SIZE);
  }

  /** The bytes of a complete record are the encoding of the item it holds. */
  lemma RecordBytes(data: Bytes, off: nat)
    requires Complete(data, off)
    ensures data[off..Next(data, off)] == EncodeItem(ItemAt(data, off))
  {
    var field := data[off..off + LENGTH_SIZE];
    var v := ItemAt(data, off);
    LEOfUnLE(field);
    assert |v| == LengthAt(data, off) == UnLE(field);
    assert LE(|v|, LENGTH_SIZE) == field;
    assert data[off..Next(data, off)] == field + v;
  }

  lemma ItemsCons(data: Bytes, off: nat)
    requires Complete(data, off)
    ensures Items(data, off) == [ItemAt(data, off)] + Items(data, Next(data, off))
    ensures Stop(data, off) == Stop(data, Next(data, off))
  {
  }

  /** The first record of an encoding, and where the others start. */
  lemma FirstEncoded(pre: Bytes, xs: seq<Item>)
    requires xs != []
    ensures pre + EncodeItems(xs) == pre + EncodeItem(xs[0]) + EncodeItems(xs[1..])
    ensures var data := pre + EncodeItems(xs);
            && Complete(data, |pre|) && ItemAt(data, |pre|) == xs[0]
            && Next(data, |pre|) == |pre + EncodeItem(xs[0])|
  {
    RecordReads(pre, xs[0], EncodeItems(xs[1..]));
    assert EncodeItems(xs) == EncodeItem(xs[0]) + EncodeItems(xs[1..]);
    hide EncodeItems, LE, Complete, ItemAt, Next;
    assert pre + EncodeItems(xs) == pre + EncodeItem(xs[0]) + EncodeItems(xs[1..]);
  }

  lemma {:induction false} ItemsOfEncoded(pre: Bytes, xs: seq<Item>)
    ensures Items(pre + EncodeItems(xs), |pre|) == xs
    ensures Stop(pre + EncodeItems(xs), |pre|) == |pre + EncodeItems(xs)|
    decreases |xs|
  {
    if xs == [] {
      assert pre + EncodeItems(xs) == pre;
    } else {
      hide Items, Stop, Complete, ItemAt, Next, EncodeItem, EncodeItems;
      FirstEncoded(pre, xs);
      ItemsCons(pre + EncodeItems(xs), |pre|);
      ItemsOfEncoded(pre + EncodeItem(xs[0]), xs[1..]);
    }
  }

  lemma EncodeItemsCons(v: Item, rest: seq<Item>)
    ensures EncodeItems([v] + rest) == EncodeItem(v) + EncodeItems(rest)
  {
    assert ([v] + rest)[1..] == rest;
  }

  lemma {:induction false} EncodeItemsConcat(xs: seq<Item>, ys: seq<Item>)
    ensures EncodeItems(xs + ys) == EncodeItems(xs) + EncodeItems(ys)
  {
    if xs == [] {
      assert xs + ys == ys;
    } else {
      assert (xs + ys)[1..] == xs[1..] + ys;
      EncodeItemsConcat(xs[1..], ys);
    }
  }

  lemma EncodeItemsSnoc(xs: seq<Item>, v: Item)
    ensures EncodeItems(xs + [v]) == EncodeItems(xs) + EncodeItem(v)
  {
    EncodeItemsConcat(xs, [v]);
    assert EncodeItems([v]) == EncodeItem(v);
  }

  /** Appending a length field and then the payload appends one record. */
  lemma Appended(count: int, done: seq<Item>, v: Item)
    ensures Header(count) + EncodeItems(done) + LE(|v|, LENGTH_SIZE) + v
         == Header(count) + EncodeItems(done + [v])
  {
    EncodeItemsSnoc(done, v);
  }

  /** Decoding inverts encoding: the items, the count and the end of the data all agree. */
  lemma DecodeOfEncode(xs: seq<Item>)
    requires Fits(xs)
    ensures Items(Encode(xs), HEADER_SIZE) == xs
    ensures Count(Encode(xs)) == |xs|
    ensures IsListData(Encode(xs))
  {
    HeaderReads(|xs|, EncodeItems(xs));
    ItemsOfEncoded(Header(|xs|), xs);
  }

  /** The layout, byte by byte: a list of one item "a". */
  lemma WireForm()
    ensures Encode([[97]]) == [1, 0, 0, 0, 0, 0, 0, 0, 1, 0, 0, 0, 97]
  {
    WordOf(1, 7);
    WordOf(1, 3);
    hide LE;
    assert Header(1) == [1, 0, 0, 0, 0, 0, 0, 0];
    assert EncodeItem([97]) == [1, 0, 0, 0, 97];
    hide Header, EncodeItem;
    assert [[97]][1..] == [];
    assert EncodeItems([[97]]) == EncodeItem([97]) + [];
  }

  lemma {:induction false} WordOf(n: byte, zeros: nat)
    ensures LE(n, zeros + 1) == [n] + seq(zeros, _ => 0)
  {
    if zeros == 0 {
      assert LE(n, 1) == [n % 256] + LE(n / 256, 0);
    } else {
      WordOf(0, zeros - 1);
      assert LE(n, zeros + 1) == [n] + LE(0, zeros);
    }
  }

  // ----- reading then encoding -----

  lemma {:induction false} EncodeOfItems(data: Bytes, off: nat)
    requires off <= |data|
    ensures EncodeItems(Items(data, off)) == data[off..Stop(data, off)]
    decreases |data| - off
  {
    if !Complete(data, off) {
    } else {
      var first, rest := ItemAt(data, off), Items(data, Next(data, off));
      EncodeOfItems(data, Next(data, off));
      RecordBytes(data, off);
      EncodeItemsCons(first, rest);
      hide EncodeItems, EncodeItem, ItemAt, Next, Complete;
      assert Items(data, off) == [first] + rest;
      assert data[off..Stop(data, off)] == data[off..Next(data, off)] + data[Next(data, off)..Stop(data, off)];
    }
  }

  /**
   The validator's predicate is exact: it holds of the encodings of lists and of nothing
   else, and the list is the one that `Items` reads.
   */
  lemma ListDataIsEncoding(data: Bytes)
    ensures IsListData(data) <==> exists xs: seq<Item> :: Fits(xs) && data == Encode(xs)
    ensures IsListData(data) ==> data == Encode(Items(data, HEADER_SIZE))
  {
    if IsListData(data) {
      var xs := Items(data, HEADER_SIZE);
      EncodeOfItems(data, HEADER_SIZE);
      HeaderOfCount(data);
      assert data == data[..HEADER_SIZE] + data[HEADER_SIZE..];
      assert Fits(xs) && data == Encode(xs);
    }
    if xs: seq<Item> :| Fits(xs) && data == Encode(xs) {
      DecodeOfEncode(xs);
    }
  }

  /** Unique decodability: two lists with the same bytes are the same list. */
  lemma EncodeInjective(xs: seq<Item>, ys: seq<Item>)
    requires Fits(xs) && Fits(ys) && Encode(xs) == Encode(ys)
    ensures xs == ys
  {
    DecodeOfEncode(xs);
    DecodeOfEncode(ys);
  }

  // ----- the loop of isListData -----

  /**
   The counted loop over the records. The count comes from the data and may be any
   signed 64-bit number; the loop still stops after at most one pass per 4 bytes.
   */
  method CheckListData(data: Bytes) returns (ok: bool, ghost steps: nat)
    ensures ok == IsListData(data)
    ensures |data| >= HEADER_SIZE ==> steps <= (|data| - HEADER_SIZE) / LENGTH_SIZE + 1
    ensures |data| < HEADER_SIZE ==> steps == 0
  {
    steps := 0;
    if |data| < HEADER_SIZE {
      return false, steps;
    }
    var length := Count(data);
    if length < 0 {
      return false, steps;
    }
    var expectedSize, offset := HEADER_SIZE, HEADER_SIZE;
    var i := 0;
    while i < length
      invariant 0 <= i <= length
      invariant HEADER_SIZE <= offset == expectedSize <= |data|
      invariant |Items(data, HEADER_SIZE)| == i + |Items(data, offset)|
      invariant Stop(data, HEADER_SIZE) == Stop(data, offset)
      invariant steps == i && LENGTH_SIZE * steps <= offset - HEADER_SIZE
    {
      steps := steps + 1;
      if offset + LENGTH_SIZE > |data| {
        return false, steps;
      }
      var itemLength := LengthAt(data, offset);
      offset := offset + LENGTH_SIZE;
      if offset + itemLength > |data| {
        return false, steps;
      }
      offset := offset + itemLength;
      expectedSize := expectedSize + LENGTH_SIZE + itemLength;
      i := i + 1;
    }
    EncodeOfItems(data, offset);
    ok := expectedSize == |data|;
  }
}
