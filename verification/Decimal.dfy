/** Decimal text of integers: strconv.FormatInt, strconv.ParseInt in base 10,
    the decoder's own length parser and the engine's stored-counter parser. */
module Decimal {
  import opened Bytes

  const INT64_MAX: int := 0x7fff_ffff_ffff_ffff
  const INT64_MIN: int := -0x8000_0000_0000_0000

  /** The largest magnitude resp.parseInt accepts. */
  const LENGTH_LIMIT: int := 0x4000_0000

  predicate IsInt64(n: int) {
    INT64_MIN <= n <= INT64_MAX
  }

  predicate IsDigit(b: Byte) {
    ZERO <= b <= NINE
  }

  predicate AllDigits(s: Bytes) {
    forall i :: 0 <= i < |s| ==> IsDigit(s[i])
  }

  /** The number a digit string denotes. */
  function Value(s: Bytes): int {
    if s == [] then 0 else Value(s[..|s| - 1]) * 10 + (s[|s| - 1] - ZERO)
  }

  function Digits(n: nat): (s: Bytes)
    ensures |s| >= 1 && AllDigits(s)
  {
    if n < 10 then [ZERO + n] else Digits(n / 10) + [ZERO + n % 10]
  }

  /** strconv.FormatInt(n, 10). */
  function FormatInt(n: int): Bytes {
    if n < 0 then [MINUS] + Digits(-n) else Digits(n)
  }

  lemma {:induction false} DigitsValue(n: nat)
    ensures Value(Digits(n)) == n
    ensures n > 0 ==> Digits(n)[0] != ZERO
  {
    if n >= 10 {
      DigitsValue(n / 10);
      assert Digits(n)[..|Digits(n)| - 1] == Digits(n / 10);
    }
  }

  /** A digit string with no superfluous leading zero is the one Digits writes. */
  lemma {:induction false} DigitsCanonical(s: Bytes)
    requires |s| >= 1 && AllDigits(s)
    requires |s| == 1 || s[0] != ZERO
    ensures Value(s) >= 0 && Digits(Value(s)) == s
  {
    if |s| == 1 {
      assert Value(s[..0]) == 0;
    } else {
      var front, last := s[..|s| - 1], s[|s| - 1] - ZERO;
      DigitsCanonical(front);
      ValuePositive(front);
      assert Value(s) == Value(front) * 10 + last;
      assert Value(s) / 10 == Value(front) && Value(s) % 10 == last;
      assert s == front + [s[|s| - 1]];
    }
  }

  lemma {:induction false} ValuePositive(s: Bytes)
    requires AllDigits(s)
    ensures Value(s) >= 0
    ensures |s| >= 1 && s[0] != ZERO ==> Value(s) > 0
  {
    if |s| >= 1 { ValuePositive(s[..|s| - 1]); }
  }

  /** A longer digit string never denotes less than a prefix of it. */
  lemma {:induction false} ValueMonotone(s: Bytes, i: nat)
    requires AllDigits(s) && i <= |s|
    ensures Value(s[..i]) <= Value(s)
  {
    if i < |s| {
      ValueMonotone(s[..|s| - 1], i);
      ValuePositive(s[..|s| - 1]);
      assert s[..|s| - 1][..i] == s[..i];
    } else {
      assert s[..i] == s;
    }
  }

  lemma {:induction false} DigitsLength(n: nat, bound: nat)
    requires n < Pow10(bound) && bound >= 1
    ensures |Digits(n)| <= bound
  {
    if n >= 10 {
      assert bound >= 2;
      DigitsLength(n / 10, bound - 1);
    }
  }

  function Pow10(k: nat): nat {
    if k == 0 then 1 else 10 * Pow10(k - 1)
  }

  // ---- the decoder's length parser -----------------------------------------

  /** What resp.parseInt accepts: an optional minus, then at least one digit,
      denoting at most 1<<30. Leading zeros and "-0" are accepted. */
  function ParseLength(s: Bytes): Option<int> {
    var digits := if s != [] && s[0] == MINUS then s[1..] else s;
    if digits == [] || !AllDigits(digits) || Value(digits) > LENGTH_LIMIT then None
    else if s[0] == MINUS then Some(-Value(digits))
    else Some(Value(digits))
  }

  lemma ParseLengthOfDigits(n: nat)
    ensures ParseLength(Digits(n)) == if n <= LENGTH_LIMIT then Some(n) else None
  {
    DigitsValue(n);
    assert IsDigit(Digits(n)[0]);
  }

  /** The accumulating loop, with its early exit on overflow. */
  method ParseInt(b: Bytes) returns (r: Option<int>)
    ensures r == ParseLength(b)
  {
    if |b| == 0 { return None; }
    var neg, i := false, 0;
    if b[0] == MINUS {
      neg, i := true, 1;
      if |b| == 1 { return None; }
    }
    ghost var digits := b[i..];
    ghost var from := i;
    var n := 0;
    while i < |b|
      invariant from <= i <= |b|
      invariant AllDigits(digits[..i - from])
      invariant n == Value(digits[..i - from]) && 0 <= n <= LENGTH_LIMIT
    {
      var c := b[i];
      if c < ZERO || c > NINE {
        assert !IsDigit(digits[i - from]);
        return None;
      }
      assert digits[..i + 1 - from] == digits[..i - from] + [c];
      n := n * 10 + (c - ZERO);
      i := i + 1;
      if n > LENGTH_LIMIT {
        if AllDigits(digits) { ValueMonotone(digits, i - from); }
        return None;
      }
    }
    assert digits[..i - from] == digits;
    return Some(if neg then -n else n);
  }

  // ---- strconv.ParseInt and the counter parser -----------------------------

  /** strconv.ParseInt(s, 10, 64): an optional sign, then digits, in range. */
  function ParseInt64(s: Bytes): Option<int> {
    var signed := s != [] && (s[0] == MINUS || s[0] == PLUS);
    var digits := if signed then s[1..] else s;
    if digits == [] || !AllDigits(digits) then None
    else
      var n := if s[0] == MINUS then -Value(digits) else Value(digits);
      if IsInt64(n) then Some(n) else None
  }

  lemma FormatIntRoundTrip(n: int)
    ensures ParseInt64(FormatInt(n)) == if IsInt64(n) then Some(n) else None
  {
    var m := if n < 0 then -n else n;
    DigitsValue(m);
    assert IsDigit(Digits(m)[0]);
    if n < 0 { assert FormatInt(n)[1..] == Digits(m); }
  }

  /** parseStoredInt: "0", or an optional minus, a digit 1-9 and more digits,
      within int64. The digit scan is a loop that only decides. */
  method ParseStoredInt(s: Bytes) returns (r: Option<int>)
    ensures forall n :: r == Some(n) <==> IsInt64(n) && s == FormatInt(n)
    ensures r == StoredInt(s)
  {
    StoredIntExact(s);
    if s == [] { return None; }
    if s == [ZERO] { return Some(0); }
    var digits := s;
    if s[0] == MINUS { digits := s[1..]; }
    if digits == [] || digits[0] < ZERO + 1 || digits[0] > NINE { return None; }
    var i := 0;
    while i < |digits|
      invariant 0 <= i <= |digits|
      invariant AllDigits(digits[..i])
    {
      if digits[i] < ZERO || digits[i] > NINE {
        assert !IsDigit(digits[i]);
        return None;
      }
      i := i + 1;
    }
    assert digits[..i] == digits;
    return ParseInt64(s);
  }

  /** The counter grammar, as parseStoredInt decides it. */
  function StoredInt(s: Bytes): Option<int> {
    var digits := if s != [] && s[0] == MINUS then s[1..] else s;
    if s == [ZERO] then Some(0)
    else if digits == [] || digits[0] == ZERO || !AllDigits(digits) then None
    else ParseInt64(s)
  }

  /** The grammar accepts exactly the texts FormatInt writes for int64 values,
      and reads each back as the integer it was written from. */
  lemma StoredIntExact(s: Bytes)
    ensures forall n :: StoredInt(s) == Some(n) <==> IsInt64(n) && s == FormatInt(n)
  {
    forall n
      ensures StoredInt(s) == Some(n) <==> IsInt64(n) && s == FormatInt(n)
    {
      if StoredInt(s) == Some(n) { StoredIntFormatted(s, n); }
      if IsInt64(n) && s == FormatInt(n) { FormattedStoredInt(n); }
    }
  }

  lemma StoredIntFormatted(s: Bytes, n: int)
    requires StoredInt(s) == Some(n)
    ensures IsInt64(n) && s == FormatInt(n)
  {
    if s != [ZERO] {
      var digits := if s[0] == MINUS then s[1..] else s;
      assert IsDigit(digits[0]);
      DigitsCanonical(digits);
      ValuePositive(digits);
    }
  }

  lemma FormattedStoredInt(n: int)
    requires IsInt64(n)
    ensures StoredInt(FormatInt(n)) == Some(n)
  {
    var m := if n < 0 then -n else n;
    DigitsValue(m);
    FormatIntRoundTrip(n);
    assert IsDigit(Digits(m)[0]);
    if n < 0 { assert FormatInt(n)[1..] == Digits(m); }
  }
}
