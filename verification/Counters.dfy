/** INCR, INCRBY, DECR and DECRBY: 64-bit wrapping arithmetic on decimal text. */
module Counters {
  import opened Bytes
  import opened Codec
  import opened Decimal

  datatype Command = Incr | Decr | IncrBy(amount: int64) | DecrBy(amount: int64)

  /** The exact, unwrapped change a command asks for. */
  function Delta(c: Command): int {
    match c
    case Incr => 1
    case Decr => -1
    case IncrBy(k) => k
    case DecrBy(k) => -(k as int)
  }

  /** The number under a key: 0 when there is no key, none when the text is no integer. */
  function Number(v: Value): Option<int64> {
    if v.None? then Some(0) else ParseInt(v.value)
  }

  /** No reply stands for the not-an-integer error. */
  function CounterStep(v: Value, c: Command): (Value, Option<int64>) {
    match Number(v)
    case None => (v, None)
    case Some(n) => var r := Wrap64(n + Delta(c)); (Some(FormatInt(r)), Some(r))
  }

  // ----- the transaction -----

  method ModifyIntegerBy(v: Value, delta: int64, operation: (int64, int64) -> int64)
      returns (v': Value, result: Option<int64>)
    ensures Number(v).None? ==> v' == v && result == None
    ensures Number(v).Some? ==>
              && result == Some(operation(Number(v).value, delta))
              && v' == Some(FormatInt(operation(Number(v).value, delta)))
  {
    if v.None? {
      var r := operation(0, delta);
      return Some(FormatInt(r)), Some(r);
    }
    var parsed := ParseInt(v.value);
    if parsed.None? {
      return v, None;
    }
    var r := operation(parsed.value, delta);
    return Some(FormatInt(r)), Some(r);
  }

  /** The four commands, each as it calls the shared body; DECR passes its amount to DECRBY. */
  method Execute(v: Value, c: Command) returns (v': Value, result: Option<int64>)
    ensures (v', result) == CounterStep(v, c)
  {
    hide Wrap64, FormatInt, ParseInt;
    match c {
      case Incr => v', result := ModifyIntegerBy(v, 1, (current: int64, delta: int64) => Wrap64(current + delta));
      case IncrBy(k) => v', result := ModifyIntegerBy(v, k, (current: int64, delta: int64) => Wrap64(current + delta));
      case Decr => v', result := ModifyIntegerBy(v, 1, (current: int64, delta: int64) => Wrap64(current - delta));
      case DecrBy(k) => v', result := ModifyIntegerBy(v, k, (current: int64, delta: int64) => Wrap64(current - delta));
    }
  }

  // ----- runs -----

  function Run(v: Value, cs: seq<Command>): (Value, seq<Option<int64>>)
    decreases |cs|
  {
    if cs == [] then (v, [])
    else
      var (v1, r) := CounterStep(v, cs[0]);
      var (v2, rs) := Run(v1, cs[1..]);
      (v2, [r] + rs)
  }

  function Sum(cs: seq<Command>): int {
    if cs == [] then 0 else Delta(cs[0]) + Sum(cs[1..])
  }

  /**
   Any run from an absent key or an integer stores the canonical decimal of the start plus
   the exact signed sum of the amounts, wrapped once at the end; reply number k is the same
   for the first k + 1 commands.
   */
  lemma {:induction false} RunIsWrappedSum(v: Value, cs: seq<Command>)
    requires Number(v).Some?
    ensures cs != [] ==> Run(v, cs).0 == Some(FormatInt(Wrap64(Number(v).value + Sum(cs))))
    ensures |Run(v, cs).1| == |cs|
    ensures forall k :: 0 <= k < |cs| ==>
              Run(v, cs).1[k] == Some(Wrap64(Number(v).value + Sum(cs[..k + 1])))
    decreases |cs|
  {
    hide Wrap64, FormatInt, ParseInt;
    if cs == [] {
    } else {
      var n := Number(v).value;
      var (v1, r) := CounterStep(v, cs[0]);
      var n1 := Wrap64(n + Delta(cs[0]));
      ParseOfFormat(n1);
      RunIsWrappedSum(v1, cs[1..]);
      WrapLate(n + Delta(cs[0]), Sum(cs[1..]));
      if cs[1..] == [] {
        assert Sum(cs) == Delta(cs[0]);
      }
      forall k | 0 <= k < |cs|
        ensures Run(v, cs).1[k] == Some(Wrap64(n + Sum(cs[..k + 1])))
      {
        RepliesStep(n, cs, k);
      }
    }
  }

  /** The reply of command k of the tail, seen from the start of the run. */
  lemma RepliesStep(n: int64, cs: seq<Command>, k: nat)
    requires k < |cs|
    ensures k == 0 ==> Wrap64(n + Sum(cs[..k + 1])) == Wrap64(n + Delta(cs[0]))
    ensures k > 0 ==> Wrap64(Wrap64(n + Delta(cs[0])) + Sum(cs[1..][..k])) == Wrap64(n + Sum(cs[..k + 1]))
  {
    hide Wrap64;
    assert cs[..k + 1][1..] == cs[1..][..k];
    assert Sum(cs[..k + 1]) == Delta(cs[0]) + Sum(cs[1..][..k]);
    WrapLate(n + Delta(cs[0]), Sum(cs[1..][..k]));
  }

  /**
   INCRBY adds and DECRBY subtracts: in range, the reply is the sum or difference itself; out of
   range it differs from it by 2^64. INCR and DECR are the steps by one. What is stored is the
   reply, and the next command reads it back.
   */
  lemma StepAnswers(v: Value, k: int64)
    requires Number(v).Some?
    ensures var n, up, down := Number(v).value, CounterStep(v, IncrBy(k)), CounterStep(v, DecrBy(k));
            && up.1.Some? && (up.1.value == n + k || !(-TWO_63 <= n + k < TWO_63))
            && (up.1.value == n + k || up.1.value == n + k - TWO_64 || up.1.value == n + k + TWO_64)
            && down.1.Some? && (down.1.value == n - k || !(-TWO_63 <= n - k < TWO_63))
            && (down.1.value == n - k || down.1.value == n - k - TWO_64 || down.1.value == n - k + TWO_64)
            && Number(up.0) == up.1 && Number(down.0) == down.1
    ensures CounterStep(v, Incr) == CounterStep(v, IncrBy(1))
    ensures CounterStep(v, Decr) == CounterStep(v, DecrBy(1))
  {
    hide Wrap64, FormatInt, ParseInt, Number;
    var n := Number(v).value;
    WrapsOnce(n, k);
    WrapsOnce(n, -(k as int));
    StoredIsReply(v, IncrBy(k));
    StoredIsReply(v, DecrBy(k));
  }

  lemma StoredIsReply(v: Value, c: Command)
    requires Number(v).Some?
    ensures Number(CounterStep(v, c).0) == CounterStep(v, c).1
  {
    hide Wrap64, FormatInt, ParseInt;
    ParseOfFormat(Wrap64(Number(v).value + Delta(c)));
  }

  lemma WrapsOnce(n: int64, k: int)
    requires -TWO_63 <= k <= TWO_63
    ensures var r := Wrap64(n + k); r == n + k || r == n + k - TWO_64 || r == n + k + TWO_64
    ensures -TWO_63 <= n + k < TWO_63 ==> Wrap64(n + k) == n + k
  {
  }

  /** One more command at the end of a run. */
  lemma {:induction false} RunSnoc(v: Value, cs: seq<Command>, c: Command)
    ensures Run(v, cs + [c])
         == (CounterStep(Run(v, cs).0, c).0, Run(v, cs).1 + [CounterStep(Run(v, cs).0, c).1])
    decreases |cs|
  {
    hide CounterStep;
    if cs == [] {
      var (v', r) := CounterStep(v, c);
      assert cs + [c] == [c] && [c][1..] == [];
      assert Run(v', []) == (v', []);
      assert [r] + [] == [] + [r];
    } else {
      assert (cs + [c])[1..] == cs[1..] + [c];
      var (v1, r) := CounterStep(v, cs[0]);
      RunSnoc(v1, cs[1..], c);
      var (v', rs) := Run(v1, cs[1..]);
      assert [r] + (rs + [CounterStep(v', c).1]) == [r] + rs + [CounterStep(v', c).1];
    }
  }

  /** A value that is not an integer is never touched, and every reply is the error. */
  lemma {:induction false} NonIntegerUntouched(v: Value, cs: seq<Command>)
    requires Number(v).None?
    ensures Run(v, cs).0 == v
    ensures forall r :: r in Run(v, cs).1 ==> r == None
    decreases |cs|
  {
    if cs == [] {
    } else {
      NonIntegerUntouched(v, cs[1..]);
    }
  }

  lemma {:induction false} SumConcat(cs: seq<Command>, ds: seq<Command>)
    ensures Sum(cs + ds) == Sum(cs) + Sum(ds)
    decreases |cs|
  {
    if cs == [] {
      assert cs + ds == ds;
    } else {
      assert (cs + ds)[1..] == cs[1..] + ds;
      SumConcat(cs[1..], ds);
    }
  }

  lemma Extract<T>(xs: seq<T>, i: nat)
    requires i < |xs|
    ensures multiset(xs) == multiset{xs[i]} + multiset(xs[..i] + xs[i + 1..])
  {
    assert xs == xs[..i] + [xs[i]] + xs[i + 1..];
  }

  lemma CancelOne<T>(x: T, a: multiset<T>, b: multiset<T>)
    requires multiset{x} + a == multiset{x} + b
    ensures a == b
  {
    assert a == (multiset{x} + a) - multiset{x};
  }

  lemma SumExtract(cs: seq<Command>, i: nat)
    requires i < |cs|
    ensures Sum(cs) == Delta(cs[i]) + Sum(cs[..i] + cs[i + 1..])
  {
    hide Delta;
    var before, after := cs[..i], cs[i + 1..];
    assert cs == before + ([cs[i]] + after);
    assert ([cs[i]] + after)[1..] == after;
    SumConcat(before, after);
    SumConcat(before, [cs[i]] + after);
  }

  /** Without the same element, rearrangements are rearrangements still. */
  lemma RestsAgree<T>(xs: seq<T>, ys: seq<T>, i: nat)
    requires multiset(xs) == multiset(ys) && xs != [] && i < |ys| && ys[i] == xs[0]
    ensures multiset(xs[1..]) == multiset(ys[..i] + ys[i + 1..])
  {
    Extract(xs, 0);
    Extract(ys, i);
    assert xs[..0] + xs[1..] == xs[1..];
    CancelOne(xs[0], multiset(xs[1..]), multiset(ys[..i] + ys[i + 1..]));
  }

  lemma Findable<T>(xs: seq<T>, ys: seq<T>) returns (i: nat)
    requires multiset(xs) == multiset(ys) && xs != []
    ensures i < |ys| && ys[i] == xs[0]
  {
    assert xs[0] in multiset(xs);
    i :| 0 <= i < |ys| && ys[i] == xs[0];
  }

  lemma {:induction false} SumIgnoresOrder(cs: seq<Command>, ds: seq<Command>)
    requires multiset(cs) == multiset(ds)
    ensures Sum(cs) == Sum(ds)
    decreases |cs|
  {
    if cs == [] {
      assert |multiset(ds)| == |ds|;
    } else {
      hide Sum, Delta;
      var i := Findable(cs, ds);
      RestsAgree(cs, ds, i);
      SumExtract(cs, 0);
      SumExtract(ds, i);
      assert cs[..0] + cs[1..] == cs[1..];
      SumIgnoresOrder(cs[1..], ds[..i] + ds[i + 1..]);
    }
  }

  /** The order of the commands of a run does not matter to what it stores. */
  lemma OrderIrrelevant(v: Value, cs: seq<Command>, ds: seq<Command>)
    requires multiset(cs) == multiset(ds)
    ensures Run(v, cs).0 == Run(v, ds).0
  {
    SumIgnoresOrder(cs, ds);
    if Number(v).None? {
      NonIntegerUntouched(v, cs);
      NonIntegerUntouched(v, ds);
    } else {
      RunIsWrappedSum(v, cs);
      RunIsWrappedSum(v, ds);
    }
  }

  /**
   INCRBY d then DECRBY d restores the number, across overflow too. It restores the bytes
   exactly when the key held the number in canonical form: "+7", "007" and an absent key
   come back as "7", "7" and "0".
   */
  lemma IncrementUndone(v: Value, d: int64)
    requires Number(v).Some?
    ensures var v' := Run(v, [IncrBy(d), DecrBy(d)]).0;
            && Number(v') == Number(v)
            && (v' == v <==> v == Some(FormatInt(Number(v).value)))
  {
    var cs := [IncrBy(d), DecrBy(d)];
    RunIsWrappedSum(v, cs);
    assert cs[1..] == [DecrBy(d)] && [DecrBy(d)][1..] == [];
    assert Sum([DecrBy(d)]) == -(d as int) + Sum([]);
    assert Sum(cs) == 0;
    ParseOfFormat(Number(v).value);
  }
}
