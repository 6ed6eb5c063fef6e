/** Bytes, machine integers and the little-endian words of the stored format. */
module Bytes {
  type byte = b: int | 0 <= b < 256
  type Bytes = seq<byte>

  const TWO_32: int := 0x1_0000_0000
  const TWO_63: int := 0x8000_0000_0000_0000
  const TWO_64: int := 0x1_0000_0000_0000_0000

  type uint32 = n: int | 0 <= n < TWO_32
  type uint64 = n: int | 0 <= n < TWO_64
  type int64 = n: int | -TWO_63 <= n < TWO_63

  /** A list item or set member: its length fits the 32-bit length field. */
  type Item = v: Bytes | |v| < TWO_32

  datatype Option<+T> = None | Some(value: T)

  /** Go's conversion of a 64-bit word to a signed integer. */
  function Signed64(n: uint64): int64 {
    if n < TWO_63 then n else n - TWO_64
  }

  /** The two's-complement result of 64-bit signed arithmetic whose exact value is `n`. */
  function Wrap64(n: int): int64 {
    if -TWO_63 <= n < TWO_63 then n else Signed64(n % 0x1_0000_0000_0000_0000)
  }

  function Pow256(k: nat): nat {
    if k == 0 then 1 else 256 * Pow256(k - 1)
  }

  /** The low `width` bytes of `n`, least significant first. */
  function LE(n: nat, width: nat): (b: Bytes)
    ensures |b| == width
    decreases n, width
  {
    if width == 0 then [] else [n % 256] + LE(n / 256, width - 1)
  }

  function UnLE(b: Bytes): nat {
    if b == [] then 0 else b[0] + 256 * UnLE(b[1..])
  }

  lemma {:induction false} UnLEOfLE(n: nat, width: nat)
    requires n < Pow256(width)
    ensures UnLE(LE(n, width)) == n
  {
    if width == 0 {
    } else {
      UnLEOfLE(n / 256, width - 1);
      assert LE(n, width)[1..] == LE(n / 256, width - 1);
    }
  }

  lemma {:induction false} LEOfUnLE(b: Bytes)
    ensures UnLE(b) < Pow256(|b|)
    ensures LE(UnLE(b), |b|) == b
  {
    if b == [] {
    } else {
      LEOfUnLE(b[1..]);
      assert UnLE(b) % 256 == b[0] && UnLE(b) / 256 == UnLE(b[1..]);
    }
  }

  lemma Pow256Words()
    ensures Pow256(4) == TWO_32 && Pow256(8) == TWO_64
  {
    assert Pow256(2) == 0x1_0000;
    assert Pow256(4) == 256 * (256 * Pow256(2));
    assert Pow256(6) == 256 * (256 * Pow256(4));
    assert Pow256(8) == 256 * (256 * Pow256(6));
  }

  /** The result of wrapping is the one 64-bit signed number that differs by a multiple of 2^64. */
  lemma WrapUnique(n: int, m: int64)
    ensures Wrap64(n) == m <==> exists q: int :: n == m + 0x1_0000_0000_0000_0000 * q
  {
    var w := Wrap64(n);
    var p := if -TWO_63 <= n < TWO_63 then 0
             else if n % 0x1_0000_0000_0000_0000 < TWO_63 then n / 0x1_0000_0000_0000_0000
             else n / 0x1_0000_0000_0000_0000 + 1;
    assert n == w + 0x1_0000_0000_0000_0000 * p;
    if q: int :| n == m + 0x1_0000_0000_0000_0000 * q {
      assert m - w == 0x1_0000_0000_0000_0000 * (p - q);
    }
  }

  /** Wrapping is congruence modulo 2^64, so wrapping early or late makes no difference. */
  lemma WrapLate(n: int, k: int)
    ensures Wrap64(Wrap64(n) + k) == Wrap64(n + k)
  {
    var q := if -TWO_63 <= n < TWO_63 then 0 else n / 0x1_0000_0000_0000_0000;
    var q' := if Wrap64(n) == n - 0x1_0000_0000_0000_0000 * q then q else q + 1;
    assert n + k == (Wrap64(n) + k) + 0x1_0000_0000_0000_0000 * q';
    WrapPeriodic(Wrap64(n) + k, q');
  }

  lemma WrapPeriodic(n: int, q: int)
    ensures Wrap64(n + 0x1_0000_0000_0000_0000 * q) == Wrap64(n)
  {
    assert (n + 0x1_0000_0000_0000_0000 * q) % 0x1_0000_0000_0000_0000 == n % 0x1_0000_0000_0000_0000;
  }
}
