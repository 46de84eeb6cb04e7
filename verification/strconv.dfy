/** Go's `strconv.Atoi` on a 64-bit platform, which `ReadFrom` uses to read
    an array's length line, and the decimal formatting that inverts it. */
module Strconv {
  import opened Wire

  const MaxInt64: int := 0x7fff_ffff_ffff_ffff
  const MinInt64: int := -0x8000_0000_0000_0000

  predicate AllDigits(s: Bytes) {
    forall i :: 0 <= i < |s| ==> IsDigit(s[i])
  }

  /** The number a run of decimal digits denotes, most significant first. */
  function DigitsValue(s: Bytes): nat
    requires AllDigits(s)
  {
    if |s| == 0 then 0
    else DigitsValue(s[..|s| - 1]) * 10 + (s[|s| - 1] as int - Zero as int)
  }

  /** Length of an optional leading sign. */
  function SignLen(s: Bytes): nat
    ensures SignLen(s) <= |s|
  {
    if |s| > 0 && (s[0] == Plus || s[0] == Minus) then 1 else 0
  }

  /** `strconv.Atoi(s)`: an optional `+` or `-`, then at least one decimal
      digit and nothing else; a value outside the 64-bit `int` range is a
      range error. Any error is `None`. */
  function Atoi(s: Bytes): (r: Option<int>)
    ensures r.Some? ==> MinInt64 <= r.value <= MaxInt64
    ensures r.Some? ==> SignLen(s) < |s| && AllDigits(s[SignLen(s)..])
    ensures r.Some? ==> (r.value < 0 ==> s[0] == Minus)
    ensures |s| > 0 && !IsDigit(s[0]) && s[0] != Plus && s[0] != Minus ==> r.None?
  {
    var body := s[SignLen(s)..];
    if |body| == 0 || !AllDigits(body) then None
    else
      var v: int := if s[0] == Minus then -(DigitsValue(body) as int) else DigitsValue(body);
      if MinInt64 <= v <= MaxInt64 then Some(v) else None
  }

  function Digit(d: nat): (b: Byte)
    requires d < 10
    ensures IsDigit(b) && b as int - Zero as int == d
  {
    (Zero as int + d) as Byte
  }

  /** Decimal formatting of a natural number, without sign or leading zeros. */
  function Itoa(n: nat): (s: Bytes)
    ensures |s| > 0 && AllDigits(s)
    ensures DigitsValue(s) == n
  {
    if n < 10 then [Digit(n)]
    else
      var s := Itoa(n / 10) + [Digit(n % 10)];
      assert s[..|s| - 1] == Itoa(n / 10);
      s
  }

  /** Formatting then parsing gives the number back, for every value an
      `int` can hold. */
  lemma AtoiItoa(n: nat)
    requires n <= MaxInt64
    ensures Atoi(Itoa(n)) == Some(n)
  {
    var s := Itoa(n);
    assert IsDigit(s[0]);
    assert SignLen(s) == 0;
    assert s[SignLen(s)..] == s;
  }

  /** The converse of `Atoi`'s contract: an optional sign followed by
      decimal digits converts to the signed value they denote whenever that
      value fits a 64-bit `int`, and to a range error otherwise. */
  lemma AtoiSigned(sign: Bytes, d: Bytes)
    requires sign == [] || sign == [Plus] || sign == [Minus]
    requires |d| > 0 && AllDigits(d)
    ensures var v: int := if sign == [Minus] then -(DigitsValue(d) as int) else DigitsValue(d);
            Atoi(sign + d) == (if MinInt64 <= v <= MaxInt64 then Some(v) else None)
  {
    var s := sign + d;
    assert IsDigit(d[0]);
    if sign == [] {
      assert s == d;
      assert SignLen(s) == 0;
    } else {
      assert SignLen(s) == 1;
    }
    assert s[SignLen(s)..] == d;
  }

  /** A leading `-` negates: the decimal text of every magnitude up to
      2^63 reads back as its negation. */
  lemma AtoiNegative(n: nat)
    requires n <= -MinInt64
    ensures Atoi([Minus] + Itoa(n)) == Some(-(n as int))
  {
    AtoiSigned([Minus], Itoa(n));
  }

  /** A leading `+` changes nothing. */
  lemma AtoiPlus(n: nat)
    requires n <= MaxInt64
    ensures Atoi([Plus] + Itoa(n)) == Some(n)
  {
    AtoiSigned([Plus], Itoa(n));
  }

  /** Decimal text beyond the 64-bit range is a range error, with or
      without a sign. */
  lemma AtoiOutOfRange(n: nat)
    ensures n > MaxInt64 ==> Atoi(Itoa(n)).None? && Atoi([Plus] + Itoa(n)).None?
    ensures n > -MinInt64 ==> Atoi([Minus] + Itoa(n)).None?
  {
    AtoiSigned([], Itoa(n));
    assert [] + Itoa(n) == Itoa(n);
    AtoiSigned([Plus], Itoa(n));
    AtoiSigned([Minus], Itoa(n));
  }

  /** A run of `k` '0' digits. */
  function Zeros(k: nat): (z: Bytes)
    ensures |z| == k && AllDigits(z) && DigitsValue(z) == 0
  {
    if k == 0 then []
    else
      var z := Zeros(k - 1) + [Zero];
      assert z[..|z| - 1] == Zeros(k - 1);
      z
  }

  lemma {:induction false} LeadingZerosValue(k: nat, d: Bytes)
    requires AllDigits(d)
    ensures AllDigits(Zeros(k) + d) && DigitsValue(Zeros(k) + d) == DigitsValue(d)
    decreases |d|
  {
    var s := Zeros(k) + d;
    if |d| == 0 {
      assert s == Zeros(k);
    } else {
      LeadingZerosValue(k, d[..|d| - 1]);
      assert s[..|s| - 1] == Zeros(k) + d[..|d| - 1];
    }
  }

  /** Leading zeros, after an optional sign, do not change what a line
      converts to. */
  lemma AtoiLeadingZeros(sign: Bytes, k: nat, d: Bytes)
    requires sign == [] || sign == [Plus] || sign == [Minus]
    requires |d| > 0 && AllDigits(d)
    ensures Atoi(sign + (Zeros(k) + d)) == Atoi(sign + d)
  {
    LeadingZerosValue(k, d);
    AtoiSigned(sign, Zeros(k) + d);
    AtoiSigned(sign, d);
  }
}
