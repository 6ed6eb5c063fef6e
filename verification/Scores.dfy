/**
 Scores as the 64-bit patterns the store keeps, with the comparisons of IEEE 754 binary64
 (sections 3.4 and 5.11): sign and magnitude, -0 equal to +0, NaN unordered. Then the order
 of sorted-set entries: by score, and by the bytes of the member among equal scores.
 */
module Scores {
  import opened Bytes

  datatype Entry = Entry(score: uint64, member: Item)

  function Magnitude(bits: uint64): int {
    if bits < TWO_63 then bits else bits - TWO_63
  }

  predicate IsNaN(bits: uint64) {
    Magnitude(bits) > 0x7FF0_0000_0000_0000
  }

  /** Monotone integer image of the numbers; both zeros go to 0. */
  function Rank(bits: uint64): int {
    if bits < TWO_63 then Magnitude(bits) else -Magnitude(bits)
  }

  predicate ScoreEq(a: uint64, b: uint64) {
    !IsNaN(a) && !IsNaN(b) && Rank(a) == Rank(b)
  }

  predicate ScoreLess(a: uint64, b: uint64) {
    !IsNaN(a) && !IsNaN(b) && Rank(a) < Rank(b)
  }

  /** `score >= min && score <= max`, false as soon as a NaN is involved. */
  predicate InRange(score: uint64, min: uint64, max: uint64) {
    (ScoreLess(min, score) || ScoreEq(min, score)) && (ScoreLess(score, max) || ScoreEq(score, max))
  }

  /** Go's string order: bytewise, a proper prefix first. */
  predicate LexLess(a: Bytes, b: Bytes) {
    b != [] && (a == [] || a[0] < b[0] || (a[0] == b[0] && LexLess(a[1..], b[1..])))
  }

  /** The comparison handed to the sort. */
  predicate EntryLess(a: Entry, b: Entry) {
    if ScoreEq(a.score, b.score) then LexLess(a.member, b.member) else ScoreLess(a.score, b.score)
  }

  ghost predicate Sorted(es: seq<Entry>) {
    forall i, j :: 0 <= i < j < |es| ==> EntryLess(es[i], es[j])
  }

  predicate NaNFree(es: seq<Entry>) {
    forall e :: e in es ==> !IsNaN(e.score)
  }

  ghost predicate DistinctMembers(es: seq<Entry>) {
    forall i, j :: 0 <= i < j < |es| ==> es[i].member != es[j].member
  }

  lemma {:induction false} LexIrreflexive(a: Bytes)
    ensures !LexLess(a, a)
  {
    if a == [] {
    } else {
      LexIrreflexive(a[1..]);
    }
  }

  lemma {:induction false} LexTransitive(a: Bytes, b: Bytes, c: Bytes)
    requires LexLess(a, b) && LexLess(b, c)
    ensures LexLess(a, c)
  {
    if a != [] && a[0] == b[0] == c[0] {
      LexTransitive(a[1..], b[1..], c[1..]);
    }
  }

  lemma {:induction false} LexTotal(a: Bytes, b: Bytes)
    requires a != b
    ensures LexLess(a, b) || LexLess(b, a)
  {
    if a != [] && b != [] && a[0] == b[0] {
      assert a == [a[0]] + a[1..] && b == [b[0]] + b[1..];
      LexTotal(a[1..], b[1..]);
    }
  }

  /** Without NaN the comparison is a strict order, total on entries with distinct members. */
  lemma EntryOrder(a: Entry, b: Entry, c: Entry)
    ensures !EntryLess(a, a)
    ensures EntryLess(a, b) && EntryLess(b, c) ==> EntryLess(a, c)
    ensures !IsNaN(a.score) && !IsNaN(b.score) && a.member != b.member ==> EntryLess(a, b) || EntryLess(b, a)
  {
    LexIrreflexive(a.member);
    if LexLess(a.member, b.member) && LexLess(b.member, c.member) {
      LexTransitive(a.member, b.member, c.member);
    }
    if a.member != b.member {
      LexTotal(a.member, b.member);
    }
  }

  lemma EntryAsymmetric(a: Entry, b: Entry)
    requires EntryLess(a, b)
    ensures !EntryLess(b, a) && a != b
  {
    EntryOrder(a, b, a);
  }

  /**
   The sort has at most one result: two sorted sequences with the same elements are equal.
   */
  lemma {:induction false} SortedUnique(es: seq<Entry>, fs: seq<Entry>)
    requires Sorted(es) && Sorted(fs)
    requires forall e :: e in es <==> e in fs
    ensures es == fs
    decreases |es|
  {
    if es == [] {
      if fs != [] {
        HeadMember(fs);
        assert false;
      }
    } else {
      assert es[0] in fs && fs[0] in es;
      SameHead(es, fs);
      TailMembership(es);
      TailMembership(fs);
      SortedUnique(es[1..], fs[1..]);
      assert es == [es[0]] + es[1..] && fs == [fs[0]] + fs[1..];
    }
  }

  lemma HeadMember<T>(xs: seq<T>)
    requires xs != []
    ensures xs[0] in xs
  {
  }

  lemma SameHead(es: seq<Entry>, fs: seq<Entry>)
    requires Sorted(es) && Sorted(fs) && es != [] && fs != []
    requires es[0] in fs && fs[0] in es
    ensures es[0] == fs[0]
  {
    var i :| 0 <= i < |es| && es[i] == fs[0];
    var j :| 0 <= j < |fs| && fs[j] == es[0];
    if i > 0 && j > 0 {
      assert EntryLess(es[0], es[i]) && EntryLess(fs[0], fs[j]);
      EntryAsymmetric(es[0], fs[0]);
    }
  }

  /** The tail of a sorted sequence holds everything but the head. */
  lemma TailMembership(es: seq<Entry>)
    requires Sorted(es) && es != []
    ensures Sorted(es[1..])
    ensures forall e :: e in es[1..] <==> e in es && e != es[0]
  {
    forall i | 1 <= i < |es| ensures es[i] != es[0] {
      assert EntryLess(es[0], es[i]);
      EntryAsymmetric(es[0], es[i]);
    }
    forall e | e in es && e != es[0] ensures e in es[1..] {
      var i :| 0 <= i < |es| && es[i] == e;
      assert es[1..][i - 1] == e;
    }
  }

  /** A NaN next to any other entry leaves no order to sort into. */
  lemma NaNHasNoPlace(es: seq<Entry>, i: nat)
    requires |es| >= 2 && i < |es| && IsNaN(es[i].score)
    ensures !Sorted(es)
  {
    var j := if i == 0 then 1 else 0;
    assert !EntryLess(es[i], es[j]) && !EntryLess(es[j], es[i]);
  }

  /** In sorted order, the scores inside an interval are consecutive. */
  lemma InRangeConvex(es: seq<Entry>, i: nat, j: nat, k: nat, min: uint64, max: uint64)
    requires Sorted(es) && i < j < k < |es|
    requires InRange(es[i].score, min, max) && InRange(es[k].score, min, max)
    ensures InRange(es[j].score, min, max)
  {
    assert EntryLess(es[i], es[j]) && EntryLess(es[j], es[k]);
  }
}
