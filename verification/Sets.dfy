/**
 The set commands. A set is stored in the list format, its members in whatever order the
 runtime iterates a map, so each writing command is specified by a relation: any listing of
 the right members is allowed, and everything is proved for all of them.
 */
module Sets {
  import opened Bytes
  import opened Codec

  function ToSet<T(==)>(xs: seq<T>): set<T> {
    set x | x in xs
  }

  ghost predicate Distinct<T>(xs: seq<T>) {
    forall i, j :: 0 <= i < j < |xs| ==> xs[i] != xs[j]
  }

  /** `xs` lists the members of `s`, each once, in some order. */
  ghost predicate Enumerates<T>(xs: seq<T>, s: set<T>) {
    Distinct(xs) && ToSet(xs) == s
  }

  /** `data` is the encoding of `s`, its members in some order. */
  ghost predicate Writes(data: Bytes, s: set<Item>) {
    exists ys :: Enumerates(ys, s) && data == Encode(ys)
  }

  /** The members a set command sees in the bytes under a key; never an error. */
  function Members(v: Value): set<Item> {
    if v.None? || |v.value| < HEADER_SIZE then {}
    else ToSet(Counted(Count(v.value), Items(v.value, HEADER_SIZE)))
  }

  /** How many argument positions name a member of `s`; repeated arguments count again. */
  function Hits<T(==)>(xs: seq<T>, s: set<T>): nat {
    if xs == [] then 0 else (if xs[0] in s then 1 else 0) + Hits(xs[1..], s)
  }

  // ----- what the commands do to the bytes under a key -----

  ghost predicate SAddOutcome(v: Value, members: seq<Item>, v': Value, added: int) {
    if members == [] then v' == v && added == 0
    else
      var after := Members(v) + ToSet(members);
      && v'.Some? && Writes(v'.value, after)
      && added == |after| - |Members(v)|
  }

  ghost predicate SRemOutcome(v: Value, members: seq<Item>, v': Value, removed: int) {
    && removed == Hits(members, Members(v))
    && var after := Members(v) - ToSet(members);
       if removed == 0 then v' == v
       else if after == {} then v' == None
       else v'.Some? && Writes(v'.value, after)
  }

  function SMembersBytes(v: Value): Option<seq<Item>> {
    if v.None? || |v.value| < HEADER_SIZE || Count(v.value) <= 0 then Some([])
    else
      var n, items := Count(v.value), Items(v.value, HEADER_SIZE);
      if n <= |items| then Some(items[..n]) else None
  }

  predicate SIsMemberBytes(v: Value, member: Item) {
    member != [] && member in Members(v)
  }

  // ----- facts about listings -----

  lemma LastIsNew<T>(xs: seq<T>)
    requires Distinct(xs) && xs != []
    ensures var rest, last := xs[..|xs| - 1], xs[|xs| - 1];
            Distinct(rest) && last !in ToSet(rest) && ToSet(xs) == ToSet(rest) + {last}
  {
    var rest, last := xs[..|xs| - 1], xs[|xs| - 1];
    assert xs == rest + [last];
    ToSetSnoc(rest, last);
  }

  lemma {:induction false} DistinctSize<T>(xs: seq<T>)
    requires Distinct(xs)
    ensures |ToSet(xs)| == |xs|
  {
    if xs == [] {
      assert ToSet(xs) == {};
    } else {
      hide Distinct, ToSet;
      LastIsNew(xs);
      DistinctSize(xs[..|xs| - 1]);
    }
  }

  lemma ToSetSnoc<T>(xs: seq<T>, x: T)
    ensures ToSet(xs + [x]) == ToSet(xs) + {x}
  {
    assert forall y :: y in xs + [x] <==> y in xs || y == x;
  }

  lemma {:induction false} HitsSnoc<T>(xs: seq<T>, x: T, s: set<T>)
    ensures Hits(xs + [x], s) == Hits(xs, s) + if x in s then 1 else 0
  {
    if xs == [] {
    } else {
      assert (xs + [x])[1..] == xs[1..] + [x];
      HitsSnoc(xs[1..], x, s);
    }
  }

  lemma {:induction false} HitsPositive<T>(xs: seq<T>, s: set<T>)
    ensures Hits(xs, s) == 0 <==> ToSet(xs) !! s
  {
    if xs == [] {
    } else {
      HitsPositive(xs[1..], s);
      assert ToSet(xs) == {xs[0]} + ToSet(xs[1..]);
    }
  }

  /** Stored members are read back, by every reader, whatever order they were written in. */
  lemma MembersOfEncoded(ys: seq<Item>, s: set<Item>)
    requires Fits(ys) && Enumerates(ys, s)
    ensures Members(Some(Encode(ys))) == s
    ensures SMembersBytes(Some(Encode(ys))) == Some(ys)
    ensures Count(Encode(ys)) == |s|
  {
    DecodeOfEncode(ys);
    DistinctSize(ys);
    assert ys[..|ys|] == ys;
  }

  // ----- the transactions -----

  /** The decoding loop at the head of SADD and of SREM; it stops quietly at damage. */
  method DecodeMembers(data: Bytes) returns (existing: set<Item>)
    requires |data| >= HEADER_SIZE
    ensures existing == Members(Some(data))
  {
    hide LE, UnLE;
    existing := {};
    var count: int := Count(data);
    var offset: nat := HEADER_SIZE;
    ghost var items := Items(data, HEADER_SIZE);
    var i := 0;
    while i < count
      invariant 0 <= i <= |items| && (i <= count || i == 0)
      invariant items[i..] == Items(data, offset)
      invariant existing == ToSet(items[..i])
    {
      if offset + LENGTH_SIZE > |data| {
        break;
      }
      var memberLen := LengthAt(data, offset);
      ghost var next := Next(data, offset);
      offset := offset + LENGTH_SIZE;
      if offset + memberLen > |data| {
        assert items[i..] == [];
        break;
      }
      var member: Item := data[offset..offset + memberLen];
      existing := existing + {member};
      offset := offset + memberLen;
      assert offset == next;
      ReadOne(items, i, member);
      i := i + 1;
    }
    CountedIsPrefix(count, items, i);
  }

  method SAdd(v: Value, members: seq<Item>) returns (newData: Bytes, added: int)
    requires members != []
    ensures SAddOutcome(v, members, Some(newData), added)
  {
    hide LE, UnLE, Writes;
    var existing: set<Item> := {};
    if v.Some? && |v.value| >= HEADER_SIZE {
      existing := DecodeMembers(v.value);
    }
    existing, added := AddMembers(existing, members);
    newData := WriteSet(existing);
  }

  /** The insertion loop of SADD. */
  method AddMembers(before: set<Item>, members: seq<Item>) returns (existing: set<Item>, added: int)
    ensures existing == before + ToSet(members)
    ensures added == |existing| - |before|
  {
    existing, added := before, 0;
    for k := 0 to |members|
      invariant existing == before + ToSet(members[..k])
      invariant added == |existing| - |before|
    {
      UnionStep(before, members, k);
      if members[k] !in existing {
        existing := existing + {members[k]};
        added := added + 1;
      }
    }
    assert members[..|members|] == members;
  }

  lemma UnionStep<T>(s: set<T>, xs: seq<T>, k: nat)
    requires k < |xs|
    ensures s + ToSet(xs[..k + 1]) == s + ToSet(xs[..k]) + {xs[k]}
  {
    assert xs[..k + 1] == xs[..k] + [xs[k]];
    ToSetSnoc(xs[..k], xs[k]);
  }

  /** One more item of a suffix has been read. */
  lemma ReadOne(items: seq<Item>, i: nat, x: Item)
    requires i < |items| && items[i..][0] == x
    ensures ToSet(items[..i + 1]) == ToSet(items[..i]) + {x}
    ensures items[i..][1..] == items[i + 1..]
  {
    assert items[..i + 1] == items[..i] + [x];
    ToSetSnoc(items[..i], x);
  }

  /** A counted scan that stops at `i` has seen what the count allows. */
  lemma CountedIsPrefix<T>(count: int, items: seq<T>, i: nat)
    requires i <= |items| && (i <= count || i == 0)
    requires i >= count || i == |items|
    ensures Counted(count, items) == items[..i]
  {
  }

  /** The re-encoding loop of SADD and SREM: map iteration picks the members in any order. */
  method WriteSet(members: set<Item>) returns (newData: Bytes)
    ensures Writes(newData, members)
  {
    newData := Header(|members|);
    ghost var ys: seq<Item> := [];
    assert EncodeItems(ys) == [] && Distinct(ys) && ToSet(ys) == {};
    hide EncodeItems, Header, Distinct, ToSet, LE, UnLE;
    var remaining := members;
    while remaining != {}
      invariant Distinct(ys) && ToSet(ys) == members - remaining && remaining <= members
      invariant newData == Header(|members|) + EncodeItems(ys)
      decreases |remaining|
    {
      var member :| member in remaining;
      newData := newData + LE(|member|, LENGTH_SIZE);
      newData := newData + member;
      Appended(|members|, ys, member);
      ToSetSnoc(ys, member);
      DistinctSnoc(ys, member);
      Moved(members, remaining, member);
      ys := ys + [member];
      remaining := remaining - {member};
    }
    assert members - {} == members;
    DistinctSize(ys);
    assert |ys| == |members| && Enumerates(ys, members) && newData == Encode(ys);
  }

  lemma Moved<T>(all: set<T>, remaining: set<T>, x: T)
    requires remaining <= all && x in remaining
    ensures all - remaining + {x} == all - (remaining - {x})
  {
  }

  lemma DistinctSnoc<T>(xs: seq<T>, x: T)
    requires Distinct(xs) && x !in ToSet(xs)
    ensures Distinct(xs + [x])
  {
  }

  /** The marking loop of SREM: a repeated argument is marked once but counted again. */
  method MarkHits(existing: set<Item>, members: seq<Item>) returns (toRemove: set<Item>, removed: int)
    ensures toRemove == ToSet(members) * existing
    ensures removed == Hits(members, existing)
  {
    toRemove, removed := {}, 0;
    for k := 0 to |members|
      invariant toRemove == ToSet(members[..k]) * existing
      invariant removed == Hits(members[..k], existing)
    {
      if members[k] in existing {
        toRemove := toRemove + {members[k]};
        removed := removed + 1;
      }
      assert members[..k + 1] == members[..k] + [members[k]];
      ToSetSnoc(members[..k], members[k]);
      HitsSnoc(members[..k], members[k], existing);
    }
    assert members[..|members|] == members;
  }

  method SRem(v: Value, members: seq<Item>) returns (v': Value, removed: int)
    ensures SRemOutcome(v, members, v', removed)
  {
    hide LE, UnLE, Writes;
    if members == [] {
      return v, 0;
    }
    if v.None? || |v.value| < HEADER_SIZE {
      HitsPositive(members, {});
      return v, 0;
    }
    var existing := DecodeMembers(v.value);
    var toRemove;
    toRemove, removed := MarkHits(existing, members);
    if removed == 0 {
      return v, 0;
    }
    assert existing - toRemove == existing - ToSet(members);
    existing := existing - toRemove;
    if |existing| == 0 {
      return None, removed;
    }
    var newData := WriteSet(existing);
    return Some(newData), removed;
  }

  method SMembers(data: Bytes) returns (result: Option<seq<Item>>)
    ensures result == SMembersBytes(Some(data))
  {
    hide LE, UnLE;
    if |data| < HEADER_SIZE {
      return Some([]);
    }
    var count: int := Count(data);
    var offset: nat := HEADER_SIZE;
    ghost var items := Items(data, HEADER_SIZE);
    var found: seq<Item> := [];
    var i := 0;
    while i < count
      invariant 0 <= i <= |items| && (i <= count || i == 0)
      invariant items[i..] == Items(data, offset)
      invariant found == items[..i]
    {
      if offset + LENGTH_SIZE > |data| {
        return None;
      }
      var memberLen := LengthAt(data, offset);
      ghost var next := Next(data, offset);
      offset := offset + LENGTH_SIZE;
      if offset + memberLen > |data| {
        assert items[i..] == [];
        return None;
      }
      var member: Item := data[offset..offset + memberLen];
      found := found + [member];
      offset := offset + memberLen;
      assert offset == next;
      ReadOne(items, i, member);
      i := i + 1;
    }
    return Some(found);
  }

  method SIsMember(data: Bytes, member: Item) returns (found: bool)
    requires member != []
    ensures found <==> SIsMemberBytes(Some(data), member)
  {
    hide LE, UnLE;
    if |data| < HEADER_SIZE {
      return false;
    }
    var count: int := Count(data);
    var offset: nat := HEADER_SIZE;
    ghost var items := Items(data, HEADER_SIZE);
    var i := 0;
    while i < count
      invariant 0 <= i <= |items| && (i <= count || i == 0)
      invariant items[i..] == Items(data, offset)
      invariant member !in items[..i]
    {
      if offset + LENGTH_SIZE > |data| {
        CountedIsPrefix(count, items, i);
        return false;
      }
      var memberLen := LengthAt(data, offset);
      ghost var next := Next(data, offset);
      offset := offset + LENGTH_SIZE;
      if offset + memberLen > |data| {
        assert items[i..] == [];
        CountedIsPrefix(count, items, i);
        return false;
      }
      var existingMember: Item := data[offset..offset + memberLen];
      ReadOne(items, i, existingMember);
      if existingMember == member {
        assert items[i] == member && Counted(count, items)[i] == member;
        return true;
      }
      offset := offset + memberLen;
      assert offset == next;
      i := i + 1;
    }
    CountedIsPrefix(count, items, i);
    return false;
  }
}
