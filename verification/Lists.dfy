/**
 The list commands. The first part says, for every byte string a key may hold, what each
 command returns and what it leaves behind; the second part is the transaction code, loop by
 loop, proved to do exactly that.
 */
module Lists {
  import opened Bytes
  import opened Codec

  function Reverse<T>(s: seq<T>): (r: seq<T>)
    ensures |r| == |s|
  {
    seq(|s|, i requires 0 <= i < |s| => s[|s| - 1 - i])
  }

  /** The position an index names: negative indices count from the end, in 64-bit arithmetic. */
  function Resolve(index: int64, length: int64): int64 {
    if index < 0 then Wrap64(length + index) else index
  }

  /** First and last position selected by a range; the range is empty when the first is larger. */
  function Window(start: int64, stop: int64, length: int64): (int64, int64) {
    var first, last := Resolve(start, length), Resolve(stop, length);
    (if first < 0 then 0 else first, if last >= length then Wrap64(length - 1) else last)
  }

  // ----- what the commands do to the bytes under a key -----

  /** The records of the list a push starts from. */
  function Existing(v: Value): seq<Item> {
    if v.None? then [] else Items(v.value, HEADER_SIZE)
  }

  function LPushBytes(v: Value, vs: seq<Item>): (Value, int64) {
    if vs == [] || (v.Some? && !IsListData(v.value)) then (v, 0)
    else
      var xs := Reverse(vs) + Existing(v);
      (Some(Encode(xs)), Wrap64(|xs|))
  }

  function RPushBytes(v: Value, vs: seq<Item>): (Value, int64) {
    if vs == [] || (v.Some? && !IsListData(v.value)) then (v, 0)
    else
      var xs := Existing(v) + vs;
      (Some(Encode(xs)), Wrap64(|xs|))
  }

  /** LPOP keeps whatever follows the first record, readable or not. */
  function LPopBytes(v: Value): (Value, Option<Item>) {
    if v.None? || |v.value| < HEADER_SIZE then (v, None)
    else
      var n, items := Count(v.value), Items(v.value, HEADER_SIZE);
      if n == 0 || items == [] then (v, None)
      else if n == 1 then (None, Some(items[0]))
      else
        var tail := v.value[Stop(v.value, HEADER_SIZE)..];
        (Some(Header(n - 1) + (EncodeItems(items[1..]) + tail)), Some(items[0]))
  }

  /** RPOP needs the records up to the popped one and drops everything from it on. */
  function RPopBytes(v: Value): (Value, Option<Item>) {
    if v.None? || |v.value| < HEADER_SIZE then (v, None)
    else
      var n, items := Count(v.value), Items(v.value, HEADER_SIZE);
      if n == 0 then (v, None)
      else if n == 1 then if items == [] then (v, None) else (None, Some(items[0]))
      else
        var last := if Wrap64(n - 1) < 0 then 0 else Wrap64(n - 1);
        if |items| <= last then (v, None)
        else (Some(Header(n - 1) + EncodeItems(items[..last])), Some(items[last]))
  }

  /** LSET tolerates one damage: the record it replaces is the last one and is cut short. */
  function LSetBytes(v: Value, index: int64, x: Item): (Value, bool) {
    if v.None? || |v.value| < HEADER_SIZE then (v, false)
    else
      var n, items := Count(v.value), Items(v.value, HEADER_SIZE);
      var j := Resolve(index, n);
      if j < 0 || j >= n then (v, false)
      else if |items| >= n then (Some(Encode(items[..n][j := x])), true)
      else if |items| == n - 1 == j && Stop(v.value, HEADER_SIZE) + LENGTH_SIZE <= |v.value| then
        (Some(Encode(items + [x])), true)
      else (v, false)
  }

  function LIndexBytes(v: Value, index: int64): Option<Item> {
    if v.None? || |v.value| < HEADER_SIZE then None
    else
      var n, items := Count(v.value), Items(v.value, HEADER_SIZE);
      var j := Resolve(index, n);
      if 0 <= j < n && j < |items| then Some(items[j]) else None
  }

  /** LRANGE reads every record; a last record cut short is an error only inside the range. */
  function LRangeBytes(v: Value, start: int64, stop: int64): Option<seq<Item>> {
    if v.None? || |v.value| < HEADER_SIZE || Count(v.value) <= 0 then Some([])
    else
      var n, items := Count(v.value), Items(v.value, HEADER_SIZE);
      var (first, last) := Window(start, stop, n);
      if first > last then Some([])
      else if |items| >= n
           || (|items| == n - 1 > last && Stop(v.value, HEADER_SIZE) + LENGTH_SIZE <= |v.value|)
      then Some(items[first..last + 1])
      else None
  }

  function LLenBytes(v: Value): int64 {
    if v.None? || |v.value| < HEADER_SIZE then 0 else Count(v.value)
  }

  // ----- the transactions -----

  method LPush(v: Value, values: seq<Item>) returns (newData: Bytes, newLength: int64)
    requires values != [] && (v.Some? ==> IsListData(v.value))
    ensures (Some(newData), newLength) == LPushBytes(v, values)
  {
    hide LE, UnLE;
    var currentLength: int := 0;
    var existingData: Bytes := [];
    if v.Some? && |v.value| >= HEADER_SIZE {
      currentLength := Count(v.value);
      existingData := v.value[HEADER_SIZE..];
      EncodeOfItems(v.value, HEADER_SIZE);
    }
    newLength := Wrap64(currentLength + |values|);
    newData := Header(newLength);
    ghost var done: seq<Item> := [];
    var i := |values| - 1;
    while i >= 0
      invariant -1 <= i < |values|
      invariant done == Reverse(values)[..|values| - 1 - i]
      invariant newData == Header(newLength) + EncodeItems(done)
    {
      newData := newData + LE(|values[i]|, LENGTH_SIZE);
      newData := newData + values[i];
      Appended(newLength, done, values[i]);
      done := done + [values[i]];
      i := i - 1;
    }
    newData := newData + existingData;
    assert done == Reverse(values);
    assert currentLength == |Existing(v)| && existingData == EncodeItems(Existing(v));
    Joined(newLength, Reverse(values), Existing(v));
  }

  method RPush(v: Value, values: seq<Item>) returns (newData: Bytes, newLength: int64)
    requires values != [] && (v.Some? ==> IsListData(v.value))
    ensures (Some(newData), newLength) == RPushBytes(v, values)
  {
    hide LE, UnLE;
    var currentLength: int := 0;
    newData := seq(HEADER_SIZE, _ => 0);
    ghost var xs := Existing(v);
    if v.Some? && |v.value| >= HEADER_SIZE {
      currentLength := Count(v.value);
      newData := newData + v.value[HEADER_SIZE..];
      EncodeOfItems(v.value, HEADER_SIZE);
    }
    newLength := Wrap64(currentLength + |values|);
    assert newData[HEADER_SIZE..] == EncodeItems(xs);
    newData := Header(newLength) + newData[HEADER_SIZE..];
    assert xs + values[..0] == xs;
    for i := 0 to |values|
      invariant newData == Header(newLength) + EncodeItems(xs + values[..i])
    {
      newData := newData + LE(|values[i]|, LENGTH_SIZE);
      newData := newData + values[i];
      Appended(newLength, xs + values[..i], values[i]);
      assert xs + values[..i + 1] == xs + values[..i] + [values[i]];
    }
    assert values[..|values|] == values;
    Joined(newLength, xs, values);
  }

  /** A header for both parts followed by the records of each is the encoding of the whole. */
  lemma Joined(count: int64, xs: seq<Item>, ys: seq<Item>)
    requires count == Wrap64(|xs + ys|)
    ensures Header(count) + EncodeItems(xs) + EncodeItems(ys) == Encode(xs + ys)
    ensures Header(count) + EncodeItems(xs + ys) == Encode(xs + ys)
  {
    EncodeItemsConcat(xs, ys);
    HeaderOfWrapped(|xs + ys|);
  }

  /** What a pop asks of the store. */
  datatype Popped = Missing | Delete(item: Item) | Replace(item: Item, newData: Bytes) {
    function After(v: Value): (Value, Option<Item>) {
      match this
      case Missing => (v, None)
      case Delete(item) => (None, Some(item))
      case Replace(item, newData) => (Some(newData), Some(item))
    }
  }

  method LPop(data: Bytes) returns (r: Popped)
    ensures r.After(Some(data)) == LPopBytes(Some(data))
  {
    if |data| < HEADER_SIZE {
      return Missing;
    }
    var length: int := Count(data);
    if length == 0 {
      return Missing;
    }
    if length == 1 {
      if |data| < HEADER_SIZE + LENGTH_SIZE {
        return Missing;
      }
      var itemLen := LengthAt(data, HEADER_SIZE);
      if |data| < HEADER_SIZE + LENGTH_SIZE + itemLen {
        return Missing;
      }
      return Delete(data[HEADER_SIZE + LENGTH_SIZE..HEADER_SIZE + LENGTH_SIZE + itemLen]);
    }
    if |data| < HEADER_SIZE + LENGTH_SIZE {
      return Missing;
    }
    var firstItemLen := LengthAt(data, HEADER_SIZE);
    if |data| < HEADER_SIZE + LENGTH_SIZE + firstItemLen {
      return Missing;
    }
    var rest := HEADER_SIZE + LENGTH_SIZE + firstItemLen;
    EncodeOfItems(data, rest);
    assert Items(data, HEADER_SIZE)[1..] == Items(data, rest);
    assert data[rest..] == data[rest..Stop(data, rest)] + data[Stop(data, rest)..];
    return Replace(data[HEADER_SIZE + LENGTH_SIZE..rest], Header(length - 1) + data[rest..]);
  }

  /**
   The state of a scan that has passed `i` record headers and stands at `offset`, when the
   scan does not check that a skipped record is whole: either all `i` records were, or the
   last one ran past the end.
   */
  ghost predicate Scanned(data: Bytes, i: int, offset: nat) {
    var items := Items(data, HEADER_SIZE);
    if offset <= |data| then
      && 0 <= i <= |items|
      && items[i..] == Items(data, offset)
      && Stop(data, HEADER_SIZE) == Stop(data, offset)
    else
      i == |items| + 1 && Stop(data, HEADER_SIZE) + LENGTH_SIZE <= |data|
  }

  /** One unchecked step of a scan. */
  lemma ScanStep(data: Bytes, i: int, offset: nat)
    requires Scanned(data, i, offset) && offset + LENGTH_SIZE <= |data|
    ensures Scanned(data, i + 1, Next(data, offset))
    ensures Complete(data, offset) <==> i < |Items(data, HEADER_SIZE)|
    ensures Complete(data, offset) ==> Items(data, HEADER_SIZE)[i] == ItemAt(data, offset)
  {
    var items := Items(data, HEADER_SIZE);
    if Complete(data, offset) {
      assert items[i..][1..] == items[i + 1..];
      assert items[i] == items[i..][0];
    }
  }

  lemma ScanStart(data: Bytes)
    requires |data| >= HEADER_SIZE
    ensures Scanned(data, 0, HEADER_SIZE)
  {
    assert Items(data, HEADER_SIZE)[0..] == Items(data, HEADER_SIZE);
  }

  /** What a scan knows where it stands; without a next header it has passed every record. */
  lemma ScanEnd(data: Bytes, i: int, offset: nat)
    requires Scanned(data, i, offset)
    ensures offset <= |data| ==> 0 <= i <= |Items(data, HEADER_SIZE)|
    ensures offset <= |data| < offset + LENGTH_SIZE ==>
              i == |Items(data, HEADER_SIZE)| && Stop(data, HEADER_SIZE) == offset
    ensures offset > |data| ==>
              i == |Items(data, HEADER_SIZE)| + 1 && Stop(data, HEADER_SIZE) + LENGTH_SIZE <= |data|
  {
  }

  method RPop(data: Bytes) returns (r: Popped)
    ensures r.After(Some(data)) == RPopBytes(Some(data))
  {
    hide LE, UnLE, Items, Stop, Scanned;
    if |data| < HEADER_SIZE {
      return Missing;
    }
    var length: int := Count(data);
    if length == 0 {
      return Missing;
    }
    ScanStart(data);
    ScanEnd(data, 0, HEADER_SIZE);
    if length == 1 {
      if |data| < HEADER_SIZE + LENGTH_SIZE {
        return Missing;
      }
      ScanStep(data, 0, HEADER_SIZE);
      var itemLen := LengthAt(data, HEADER_SIZE);
      if |data| < HEADER_SIZE + LENGTH_SIZE + itemLen {
        return Missing;
      }
      return Delete(data[HEADER_SIZE + LENGTH_SIZE..HEADER_SIZE + LENGTH_SIZE + itemLen]);
    }
    ghost var items := Items(data, HEADER_SIZE);
    var offset: nat := HEADER_SIZE;
    var i := 0;
    while i < Wrap64(length - 1)
      invariant 0 <= i && (i <= Wrap64(length - 1) || i == 0)
      invariant HEADER_SIZE <= offset && Scanned(data, i, offset)
      invariant offset <= |data| ==> i <= |items|
      invariant offset <= |data| ==> data[HEADER_SIZE..offset] == EncodeItems(items[..i])
      decreases Wrap64(length - 1) - i
    {
      if offset + LENGTH_SIZE > |data| {
        ScanEnd(data, i, offset);
        return Missing;
      }
      ScanStep(data, i, offset);
      if Complete(data, offset) {
        SkippedBytes(data, i, offset);
      }
      offset := Next(data, offset);
      i := i + 1;
      ScanEnd(data, i, offset);
    }
    if offset + LENGTH_SIZE > |data| {
      ScanEnd(data, i, offset);
      return Missing;
    }
    ScanStep(data, i, offset);
    var lastItemLen := LengthAt(data, offset);
    offset := offset + LENGTH_SIZE;
    if offset + lastItemLen > |data| {
      return Missing;
    }
    var newData := Header(length - 1);
    newData := newData + data[HEADER_SIZE..offset - LENGTH_SIZE];
    return Replace(data[offset..offset + lastItemLen], newData);
  }

  /** The raw bytes a scan has passed are the encoding of the items it has passed. */
  lemma SkippedBytes(data: Bytes, i: int, offset: nat)
    requires HEADER_SIZE <= offset && Scanned(data, i, offset) && offset + LENGTH_SIZE <= |data|
    requires data[HEADER_SIZE..offset] == EncodeItems(Items(data, HEADER_SIZE)[..i])
    requires Complete(data, offset)
    ensures 0 <= i < |Items(data, HEADER_SIZE)|
    ensures data[HEADER_SIZE..Next(data, offset)] == EncodeItems(Items(data, HEADER_SIZE)[..i + 1])
  {
    var items := Items(data, HEADER_SIZE);
    ScanStep(data, i, offset);
    RecordBytes(data, offset);
    EncodeItemsSnoc(items[..i], items[i]);
    assert items[..i + 1] == items[..i] + [items[i]];
    assert data[HEADER_SIZE..Next(data, offset)] == data[HEADER_SIZE..offset] + data[offset..Next(data, offset)];
  }

  method LSet(data: Bytes, index: int64, value: Item) returns (newData: Option<Bytes>)
    ensures LSetBytes(Some(data), index, value)
         == if newData.Some? then (newData, true) else (Some(data), false)
  {
    hide LE, UnLE, Items, Stop, Scanned;
    if |data| < HEADER_SIZE {
      return None;
    }
    var length: int := Count(data);
    var j := if index < 0 then Wrap64(length + index) else index;
    if j < 0 || j >= length {
      return None;
    }
    ghost var items := Items(data, HEADER_SIZE);
    ghost var done: seq<Item> := [];
    var buffer := Header(length);
    var offset: nat := HEADER_SIZE;
    ScanStart(data);
    for i := 0 to length
      invariant HEADER_SIZE <= offset && Scanned(data, i, offset) && |done| == i
      invariant buffer == Header(length) + EncodeItems(done)
      invariant forall k :: 0 <= k < i && k != j ==> k < |items| && done[k] == items[k]
      invariant i > j ==> done[j] == value
    {
      if offset + LENGTH_SIZE > |data| {
        ScanEnd(data, i, offset);
        return None;
      }
      ScanStep(data, i, offset);
      ghost var next := Next(data, offset);
      var itemLen := LengthAt(data, offset);
      offset := offset + LENGTH_SIZE;
      if i == j {
        buffer := buffer + LE(|value|, LENGTH_SIZE);
        buffer := buffer + value;
        Appended(length, done, value);
        done := done + [value];
        offset := offset + itemLen;
        assert offset == next;
        continue;
      }
      if offset + itemLen > |data| {
        return None;
      }
      var item: Item := data[offset..offset + itemLen];
      buffer := buffer + LE(itemLen, LENGTH_SIZE);
      buffer := buffer + item;
      Appended(length, done, item);
      done := done + [item];
      offset := offset + itemLen;
      assert offset == next;
    }
    ScanEnd(data, length, offset);
    if |items| >= length {
      assert done == items[..length][j := value];
    } else {
      assert offset > |data|;
      assert length == |items| + 1;
      assert |done[|items|]| >= 0 && j == |items|;
      assert done == items + [value];
    }
    return Some(buffer);
  }

  method LIndex(data: Bytes, index: int64) returns (result: Option<Item>)
    ensures result == LIndexBytes(Some(data), index)
  {
    hide LE, UnLE, Items, Stop, Scanned;
    if |data| < HEADER_SIZE {
      return None;
    }
    var length: int := Count(data);
    var j := if index < 0 then Wrap64(length + index) else index;
    if j < 0 || j >= length {
      return None;
    }
    var offset: nat := HEADER_SIZE;
    ScanStart(data);
    for i := 0 to j + 1
      invariant Scanned(data, i, offset)
      invariant i <= j
    {
      if offset + LENGTH_SIZE > |data| {
        ScanEnd(data, i, offset);
        return None;
      }
      ScanStep(data, i, offset);
      ghost var next := Next(data, offset);
      var itemLen := LengthAt(data, offset);
      offset := offset + LENGTH_SIZE;
      if i == j {
        if offset + itemLen > |data| {
          return None;
        }
        return Some(data[offset..offset + itemLen]);
      }
      offset := offset + itemLen;
      assert offset == next;
    }
    return None;
  }

  /** Of the first `upto` elements, those at positions `first..last`. */
  function Between<T>(items: seq<T>, first: nat, last: int, upto: nat): seq<T>
    requires upto <= first || upto <= |items| || last < |items|
  {
    if upto <= first || last < first then []
    else if upto <= last then items[first..upto]
    else items[first..last + 1]
  }

  lemma BetweenStep<T>(items: seq<T>, first: nat, last: int, i: nat)
    requires i < first || i < |items| || last < |items|
    ensures Between(items, first, last, i + 1)
         == Between(items, first, last, i) + if first <= i <= last then [items[i]] else []
  {
    if first <= i <= last {
      assert items[first..i + 1] == items[first..i] + [items[i]];
    }
  }

  /** The five assignments by which LRANGE and ZRANGE turn their arguments into positions. */
  method ClampWindow(start: int64, stop: int64, length: int64) returns (first: int64, last: int64)
    ensures first >= 0
    ensures length > 0 ==> (first, last) == Window(start, stop, length) && last < length
  {
    first, last := start, stop;
    if first < 0 {
      first := Wrap64(length + first);
    }
    if last < 0 {
      last := Wrap64(length + last);
    }
    if first < 0 {
      first := 0;
    }
    if last >= length {
      last := Wrap64(length - 1);
    }
  }

  method LRange(data: Bytes, start: int64, stop: int64) returns (result: Option<seq<Item>>)
    ensures result == LRangeBytes(Some(data), start, stop)
  {
    hide LE, UnLE, Items, Stop, Scanned;
    if |data| < HEADER_SIZE {
      return Some([]);
    }
    var length: int := Count(data);
    if length == 0 {
      return Some([]);
    }
    var first, last := ClampWindow(start, stop, length);
    if first > last {
      return Some([]);
    }
    ghost var items := Items(data, HEADER_SIZE);
    var found: seq<Item> := [];
    var offset: nat := HEADER_SIZE;
    ScanStart(data);
    var i := 0;
    while i < length
      invariant 0 <= i && (i <= length || i == 0)
      invariant Scanned(data, i, offset)
      invariant i <= first || i <= |items| || last < |items|
      invariant found == Between(items, first, last, i)
    {
      if offset + LENGTH_SIZE > |data| {
        ScanEnd(data, i, offset);
        return None;
      }
      ScanStep(data, i, offset);
      ghost var next := Next(data, offset);
      var itemLen := LengthAt(data, offset);
      offset := offset + LENGTH_SIZE;
      if first <= i <= last {
        if offset + itemLen > |data| {
          return None;
        }
        var item: Item := data[offset..offset + itemLen];
        found := found + [item];
      }
      offset := offset + itemLen;
      assert offset == next;
      BetweenStep(items, first, last, i);
      i := i + 1;
    }
    ScanEnd(data, i, offset);
    return Some(found);
  }
}
