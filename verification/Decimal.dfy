/** Decimal text of integers, as strconv.FormatInt and strconv.ParseInt(s, 10, 64) define it. */
module Decimal {
  import opened Bytes

  const ZERO: byte := 48
  const PLUS: byte := 43
  const MINUS: byte := 45

  predicate IsDigit(c: byte) {
    48 <= c <= 57
  }

  predicate AllDigits(s: Bytes) {
    forall c :: c in s ==> IsDigit(c)
  }

  function Digits(n: nat): (s: Bytes)
    ensures s != [] && AllDigits(s)
  {
    if n < 10 then [48 + n] else Digits(n / 10) + [48 + n % 10]
  }

  function DigitsValue(s: Bytes): nat
    requires AllDigits(s)
  {
    if s == [] then 0
    else
      var last := s[|s| - 1];
      assert last in s;
      10 * DigitsValue(s[..|s| - 1]) + (last as int - 48)
  }

  function FormatInt(n: int): Bytes {
    if n < 0 then [MINUS] + Digits(-n) else Digits(n)
  }

  /** An optional sign and at least one digit, with a value that fits 64 bits. */
  function ParseInt(s: Bytes): Option<int64> {
    var signed := s != [] && (s[0] == PLUS || s[0] == MINUS);
    var body := if signed then s[1..] else s;
    if body == [] || !AllDigits(body) then None
    else
      var magnitude: int := DigitsValue(body);
      var n := if signed && s[0] == MINUS then -magnitude else magnitude;
      if -TWO_63 <= n < TWO_63 then Some(n) else None
  }

  lemma {:induction false} DigitsRoundTrip(n: nat)
    ensures DigitsValue(Digits(n)) == n
  {
    if n < 10 {
      assert Digits(n)[..0] == [];
    } else {
      DigitsRoundTrip(n / 10);
      assert Digits(n)[..|Digits(n)| - 1] == Digits(n / 10);
    }
  }

  /** What was printed is parsed back. */
  lemma ParseOfFormat(n: int64)
    ensures ParseInt(FormatInt(n)) == Some(n)
  {
    hide DigitsValue, Digits;
    if n < 0 {
      DigitsRoundTrip(-(n as int));
      assert FormatInt(n)[1..] == Digits(-(n as int));
    } else {
      DigitsRoundTrip(n);
      assert Digits(n)[0] in Digits(n);
    }
  }

  // ----- which texts are numbers, and which text a number gets -----

  function Zeros(k: nat): (s: Bytes)
    ensures |s| == k && AllDigits(s) && forall c :: c in s ==> c == ZERO
  {
    seq(k, _ => ZERO)
  }

  /** Printed numbers have no leading zero, and a minus sign exactly when they are negative. */
  lemma {:induction false} NoLeadingZero(n: nat)
    ensures Digits(n)[0] == ZERO <==> n == 0
    ensures n < 10 ==> Digits(n) == [48 + n]
  {
    if n < 10 {
    } else {
      NoLeadingZero(n / 10);
    }
  }

  lemma {:induction false} LeadingZeros(k: nat, s: Bytes)
    requires AllDigits(s)
    ensures AllDigits(Zeros(k) + s) && DigitsValue(Zeros(k) + s) == DigitsValue(s)
    decreases |s|
  {
    var t := Zeros(k) + s;
    if s == [] {
      assert t == Zeros(k);
      ZerosValue(k);
    } else {
      var n := |s| - 1;
      assert s == s[..n] + [s[n]];
      assert t[..|t| - 1] == Zeros(k) + s[..n];
      LeadingZeros(k, s[..n]);
    }
  }

  lemma {:induction false} ZerosValue(k: nat)
    ensures DigitsValue(Zeros(k)) == 0
  {
    if k == 0 {
    } else {
      assert Zeros(k)[..k - 1] == Zeros(k - 1);
      ZerosValue(k - 1);
    }
  }

  lemma AppendDigit(j: nat, v: nat, last: byte) returns (k: nat)
    requires IsDigit(last)
    ensures Zeros(j) + Digits(v) + [last] == Zeros(k) + Digits(10 * v + (last as int - 48))
  {
    if v == 0 {
      k := j + 1;
      assert Digits(0) == [48] && Digits(last as int - 48) == [last];
      hide Digits;
      assert Zeros(j) + [48] == Zeros(j + 1);
    } else {
      k := j;
      assert Digits(10 * v + (last as int - 48)) == Digits(v) + [last];
      hide Digits;
      assert Zeros(j) + Digits(v) + [last] == Zeros(j) + (Digits(v) + [last]);
    }
  }

  lemma ValueSnoc(rest: Bytes, last: byte)
    requires AllDigits(rest) && IsDigit(last)
    ensures AllDigits(rest + [last])
    ensures DigitsValue(rest + [last]) == 10 * DigitsValue(rest) + (last as int - 48)
  {
    assert (rest + [last])[..|rest|] == rest;
  }

  /** A string of digits is the printed number behind some zeros. */
  lemma {:induction false} DigitsBehindZeros(s: Bytes) returns (k: nat)
    requires s != [] && AllDigits(s)
    ensures s == Zeros(k) + Digits(DigitsValue(s))
    decreases |s|
  {
    var n := |s| - 1;
    var rest, last := s[..n], s[n];
    assert s == rest + [last] && last in s;
    ValueSnoc(rest, last);
    if n == 0 {
      k := 0;
      assert DigitsValue(rest) == 0;
      assert Digits(last as int - 48) == [last];
      hide Digits, DigitsValue;
      assert s == Zeros(0) + [last];
    } else {
      hide Digits, DigitsValue, Zeros;
      var j := DigitsBehindZeros(rest);
      k := AppendDigit(j, DigitsValue(rest), last);
    }
  }

  /** A sign that fits the number, some zeros, and the digits of the magnitude. */
  ghost predicate IsText(s: Bytes, n: int64) {
    exists sign: Bytes, k: nat :: Spells(s, sign, k, n)
  }

  predicate Spells(s: Bytes, sign: Bytes, k: nat, n: int64) {
    && (sign == [] || sign == [43] || sign == [45])
    && (n < 0 ==> sign == [45]) && (n > 0 ==> sign != [45])
    && s == sign + (Zeros(k) + Digits(if n < 0 then -(n as int) else n))
  }

  lemma ParsedIsText(s: Bytes, n: int64)
    requires ParseInt(s) == Some(n)
    ensures IsText(s, n)
  {
    hide Digits, DigitsValue, Zeros;
    var signed := s[0] == PLUS || s[0] == MINUS;
    var sign, body := if signed then [s[0]] else [], if signed then s[1..] else s;
    var k := DigitsBehindZeros(body);
    assert s == sign + body;
    assert Spells(s, sign, k, n);
  }

  lemma TextIsParsed(s: Bytes, sign: Bytes, k: nat, n: int64)
    requires Spells(s, sign, k, n)
    ensures ParseInt(s) == Some(n)
  {
    var a: nat := if n < 0 then -(n as int) else n;
    var text := Zeros(k) + Digits(a);
    hide Digits, DigitsValue;
    assert text[0] in text && IsDigit(text[0]);
    LeadingZeros(k, Digits(a));
    DigitsRoundTrip(a);
    hide Zeros;
    if sign == [] {
      assert s == text;
    } else {
      assert s[0] == sign[0] && s[1..] == text;
    }
  }

  /**
   Exactly these texts are the number `n`: an optional sign, any number of zeros, and the
   digits of its magnitude, with the sign fitting the number; and `n` must fit 64 bits.
   */
  lemma ParseExactly(s: Bytes, n: int64)
    ensures ParseInt(s) == Some(n) <==> IsText(s, n)
  {
    hide ParseInt, Spells;
    if ParseInt(s) == Some(n) {
      ParsedIsText(s, n);
    }
    if IsText(s, n) {
      var sign, k :| Spells(s, sign, k, n);
      TextIsParsed(s, sign, k, n);
    }
  }

  /** The text a number is stored as is the shortest one that is the number, and the only one so short. */
  lemma ShortestText(s: Bytes, n: int64)
    requires ParseInt(s) == Some(n)
    ensures |FormatInt(n)| <= |s|
    ensures |FormatInt(n)| == |s| ==> s == FormatInt(n)
  {
    ParseExactly(s, n);
    hide ParseInt, Digits;
    var sign, k :| Spells(s, sign, k, n);
    assert k == 0 ==> Zeros(k) == [];
  }
}
