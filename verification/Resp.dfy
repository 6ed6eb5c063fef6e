/**
 The array replies. The reader follows the Redis serialization protocol specification, RESP2,
 sections "Arrays" and "Bulk strings".
 */
module Resp {
  import opened Bytes
  import opened Decimal

  const STAR: byte := 42
  const DOLLAR: byte := 36
  const CR: byte := 13
  const LF: byte := 10
  const CRLF: Bytes := [13, 10]

  function FormatBulk(item: Bytes): Bytes {
    [DOLLAR] + Digits(|item|) + CRLF + item + CRLF
  }

  function FormatBulks(items: seq<Bytes>): Bytes {
    if items == [] then [] else FormatBulk(items[0]) + FormatBulks(items[1..])
  }

  function FormatArray(items: seq<Bytes>): Bytes {
    [STAR] + Digits(|items|) + CRLF + FormatBulks(items)
  }

  // ----- the reader -----

  function DigitCount(s: Bytes): (k: nat)
    ensures k <= |s| && AllDigits(s[..k])
  {
    if s == [] || !IsDigit(s[0]) then 0
    else
      var k := 1 + DigitCount(s[1..]);
      assert s[..k] == [s[0]] + s[1..][..k - 1];
      k
  }

  /** A decimal number ended by CRLF, and what follows. */
  function ReadNumber(s: Bytes): Option<(nat, Bytes)> {
    var k := DigitCount(s);
    if k == 0 || |s| < k + 2 || s[k..k + 2] != CRLF then None
    else Some((DigitsValue(s[..k]), s[k + 2..]))
  }

  function ReadBulk(s: Bytes): Option<(Bytes, Bytes)> {
    if s == [] || s[0] != DOLLAR then None
    else
      var header := ReadNumber(s[1..]);
      if header.None? then None
      else
        var (n, rest) := header.value;
        if |rest| < n + 2 || rest[n..n + 2] != CRLF then None
        else Some((rest[..n], rest[n + 2..]))
  }

  function ReadBulks(n: nat, s: Bytes): Option<(seq<Bytes>, Bytes)> {
    if n == 0 then Some(([], s))
    else
      var first := ReadBulk(s);
      if first.None? then None
      else
        var others := ReadBulks(n - 1, first.value.1);
        if others.None? then None else Some(([first.value.0] + others.value.0, others.value.1))
  }

  function ReadArray(s: Bytes): Option<(seq<Bytes>, Bytes)> {
    if s == [] || s[0] != STAR then None
    else
      var header := ReadNumber(s[1..]);
      if header.None? then None else ReadBulks(header.value.0, header.value.1)
  }

  // ----- round trip -----

  lemma {:induction false} DigitCountStops(ds: Bytes, rest: Bytes)
    requires AllDigits(ds) && rest != [] && !IsDigit(rest[0])
    ensures DigitCount(ds + rest) == |ds|
    decreases |ds|
  {
    if ds == [] {
      assert ds + rest == rest;
    } else {
      assert (ds + rest)[1..] == ds[1..] + rest;
      DigitCountStops(ds[1..], rest);
    }
  }

  lemma ReadsNumber(n: nat, rest: Bytes)
    ensures ReadNumber(Digits(n) + CRLF + rest) == Some((n, rest))
  {
    var s := Digits(n) + CRLF + rest;
    assert s == Digits(n) + (CRLF + rest);
    DigitCountStops(Digits(n), CRLF + rest);
    DigitsRoundTrip(n);
    assert s[..|Digits(n)|] == Digits(n);
    assert s[|Digits(n)|..|Digits(n)| + 2] == CRLF;
    assert s[|Digits(n)| + 2..] == rest;
  }

  lemma ReadsBulk(item: Bytes, rest: Bytes)
    ensures ReadBulk(FormatBulk(item) + rest) == Some((item, rest))
  {
    var s := FormatBulk(item) + rest;
    var body := item + CRLF + rest;
    assert s[1..] == Digits(|item|) + CRLF + body;
    ReadsNumber(|item|, body);
    assert body[..|item|] == item && body[|item|..|item| + 2] == CRLF && body[|item| + 2..] == rest;
  }

  lemma {:induction false} ReadsBulks(items: seq<Bytes>, rest: Bytes)
    ensures ReadBulks(|items|, FormatBulks(items) + rest) == Some((items, rest))
    decreases |items|
  {
    hide ReadBulk, FormatBulk;
    if items == [] {
      assert FormatBulks(items) + rest == rest;
    } else {
      var more := FormatBulks(items[1..]) + rest;
      assert FormatBulks(items) + rest == FormatBulk(items[0]) + more;
      ReadsBulk(items[0], more);
      ReadsBulks(items[1..], rest);
      assert items == [items[0]] + items[1..];
    }
  }

  /**
   A RESP2 reader gets back exactly the items and exactly what follows the array, whatever
   bytes the items are made of.
   */
  lemma ArrayRoundTrip(items: seq<Bytes>, tail: Bytes)
    ensures ReadArray(FormatArray(items) + tail) == Some((items, tail))
  {
    var s := FormatArray(items) + tail;
    assert s[1..] == Digits(|items|) + CRLF + (FormatBulks(items) + tail);
    ReadsNumber(|items|, FormatBulks(items) + tail);
    ReadsBulks(items, tail);
  }

  /** The bytes on the wire: "*0", and "*2", "$1", "a", "$0", "", each line ended by CRLF. */
  lemma ArrayForm()
    ensures FormatArray([]) == [42, 48, 13, 10]
    ensures FormatArray([[97], []])
         == [42, 50, 13, 10] + [36, 49, 13, 10] + [97, 13, 10] + [36, 48, 13, 10] + [13, 10]
  {
    assert Digits(0) == [48] && Digits(1) == [49] && Digits(2) == [50];
    assert FormatBulk([97]) == [36, 49, 13, 10] + [97, 13, 10];
    assert FormatBulk([]) == [36, 48, 13, 10] + [13, 10];
    var items: seq<Bytes> := [[97], []];
    assert items[1..] == [[]] && items[1..][1..] == [];
    assert FormatBulks(items) == FormatBulk([97]) + (FormatBulk([]) + []);
  }

  /** So replies on one connection cannot run into each other. */
  lemma ArraysSelfDelimiting(xs: seq<Bytes>, ys: seq<Bytes>, t: Bytes, u: Bytes)
    requires FormatArray(xs) + t == FormatArray(ys) + u
    ensures xs == ys && t == u
  {
    ArrayRoundTrip(xs, t);
    ArrayRoundTrip(ys, u);
  }

  // ----- the printer -----

  lemma {:induction false} FormatBulksSnoc(items: seq<Bytes>, item: Bytes)
    ensures FormatBulks(items + [item]) == FormatBulks(items) + FormatBulk(item)
  {
    if items == [] {
      assert FormatBulks([item]) == FormatBulk(item);
    } else {
      assert (items + [item])[1..] == items[1..] + [item];
      FormatBulksSnoc(items[1..], item);
    }
  }

  lemma OneMoreBulk(head: Bytes, done: seq<Bytes>, item: Bytes)
    ensures head + FormatBulks(done) + ([DOLLAR] + Digits(|item|) + CRLF) + item + CRLF
         == head + FormatBulks(done + [item])
  {
    FormatBulksSnoc(done, item);
  }

  method PrintArray(items: seq<Bytes>) returns (result: Bytes)
    ensures result == FormatArray(items)
  {
    if |items| == 0 {
      assert Digits(0) == [48];
      return [STAR, 48] + CRLF;
    }
    result := [STAR] + Digits(|items|) + CRLF;
    assert FormatBulks(items[..0]) == [];
    hide FormatBulks, FormatBulk, Digits;
    for i := 0 to |items|
      invariant result == [STAR] + Digits(|items|) + CRLF + FormatBulks(items[..i])
    {
      result := result + ([DOLLAR] + Digits(|items[i]|) + CRLF);
      result := result + items[i];
      result := result + CRLF;
      OneMoreBulk([STAR] + Digits(|items|) + CRLF, items[..i], items[i]);
      assert items[..i + 1] == items[..i] + [items[i]];
    }
    assert items[..|items|] == items;
  }
}
