/** strconv.Itoa and strconv.Atoi on decimal text. */
module Decimal {
  import opened Text

  predicate IsDigit(c: char) {
    '0' <= c <= '9'
  }

  function DigitOf(d: nat): (c: char)
    requires d < 10
    ensures IsDigit(c) && DigitValue(c) == d
  {
    '0' + d as char
  }

  function DigitValue(c: char): (d: nat)
    requires IsDigit(c)
    ensures d < 10
  {
    c as int - '0' as int
  }

  predicate AllDigits(s: string) {
    forall i :: 0 <= i < |s| ==> IsDigit(s[i])
  }

  /** The canonical decimal text of n: no sign, no leading zero. */
  function Itoa(n: nat): (s: string)
    ensures |s| >= 1 && AllDigits(s)
  {
    if n < 10 then [DigitOf(n)] else Itoa(n / 10) + [DigitOf(n % 10)]
  }

  /** The number a digit string denotes; leading zeros do not matter. */
  function ToNat(s: string): nat
    requires AllDigits(s)
  {
    if s == "" then 0 else 10 * ToNat(s[..|s| - 1]) + DigitValue(s[|s| - 1])
  }

  lemma {:induction false} ToNatOfItoa(n: nat)
    ensures ToNat(Itoa(n)) == n
  {
    if n >= 10 {
      ToNatOfItoa(n / 10);
      assert Itoa(n)[..|Itoa(n)| - 1] == Itoa(n / 10);
    } else {
      assert Itoa(n)[..0] == "";
    }
  }

  lemma ItoaInjective(m: nat, n: nat)
    requires Itoa(m) == Itoa(n)
    ensures m == n
  {
    ToNatOfItoa(m);
    ToNatOfItoa(n);
  }

  /** The range of Go's int on 64-bit platforms. */
  const MAX_INT: int := 0x7fff_ffff_ffff_ffff
  const MIN_INT: int := -MAX_INT - 1

  function Clamp(v: int): int {
    if v > MAX_INT then MAX_INT else if v < MIN_INT then MIN_INT else v
  }

  /** An addition on int wraps around; only the step past the largest number matters here. */
  function Successor(v: int): int {
    if v == MAX_INT then MIN_INT else v + 1
  }

  /** The number an optional sign and at least one digit denote, whatever its size; None for other texts. */
  function SignedValue(s: string): Option<int> {
    var signed := s != "" && (s[0] == '+' || s[0] == '-');
    var digits := if signed then s[1..] else s;
    if digits == "" || !AllDigits(digits) then None
    else Some(if s[0] == '-' then -(ToNat(digits) as int) else ToNat(digits))
  }

  /** strconv.Atoi; None for its syntax and range errors. */
  function Atoi(s: string): Option<int> {
    match SignedValue(s)
    case None => None
    case Some(v) => if v == Clamp(v) then Some(v) else None
  }

  /** The number strconv.Atoi returns even with an error: the nearest int for a range error, 0 for a syntax error. */
  function AtoiValue(s: string): int {
    match SignedValue(s)
    case None => 0
    case Some(v) => Clamp(v)
  }

  /** strconv.Itoa for numbers of either sign. */
  function SignedItoa(v: int): string {
    if v < 0 then "-" + Itoa(-v) else Itoa(v)
  }

  lemma AtoiOfItoa(n: nat)
    requires n <= MAX_INT
    ensures Atoi(Itoa(n)) == Some(n)
  {
    ToNatOfItoa(n);
    assert IsDigit(Itoa(n)[0]);
  }

  lemma AtoiValueOfDigits(d: string)
    requires d != "" && AllDigits(d)
    ensures AtoiValue(d) == Clamp(ToNat(d))
    ensures AtoiValue("-" + d) == Clamp(-(ToNat(d) as int))
  {
    assert IsDigit(d[0]);
    assert ("-" + d)[1..] == d;
  }
}
